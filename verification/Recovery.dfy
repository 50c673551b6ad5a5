/** An image whose trailing footer was cut off: what its mirror still recovers, and the one
    family of images for which recovery is not safe to write to. */
module Recovery {
  import opened Bytes
  import opened Results
  import opened Format
  import opened Blocks
  import opened Disks
  import opened Acceptance
  import opened Images
  import opened Cuts
  import opened Creation
  import opened Landing
  import opened Readers
  import opened Opening
  import opened Steps
  import opened Publishing
  import Footers
  import Headers = DynamicHeaders

  // ---- Cutting a footer off ----

  /** A whole image with its footer in place and the metadata intact. */
  ghost predicate WellFormed(d: Disk, footer: seq<byte>) {
    Inv(d) && Anchored(d.l, d.dev, footer) && |d.dev| == d.tail + FOOTER_SIZE && LastSector(d.dev) == footer
  }

  /** The device without its last sector. */
  function Truncated(d: Disk): (cut: seq<byte>)
    requires |d.dev| == d.tail + FOOTER_SIZE
    ensures |cut| == d.tail
  {
    d.dev[..d.tail]
  }

  /** Cutting changes nothing below the footer. */
  lemma TruncatedIsCut(d: Disk, footer: seq<byte>)
    requires WellFormed(d, footer)
    ensures Cut(d.(dev := Truncated(d)), footer) && d.l.blockSize > 0
    ensures Contents(d.(dev := Truncated(d))) == Contents(d) && Table(d.l, Truncated(d)) == Table(d.l, d.dev)
  {
    hide Flat, TableFits, Agrees;
    var cut := Truncated(d);
    forall i | 0 <= i < d.tail ensures At(d.dev, i) == At(cut, i) {
      assert cut[i] == d.dev[i];
    }
    AboveTail(d, cut);
    AnchoredFrame(d.l, d.dev, cut, footer);
  }

  /** The cut device, believed from its mirror, opens unless its last sector begins with the
      cookie and a block reaches into it. */
  lemma TruncatedOpens(d: Disk, footer: seq<byte>)
    requires WellFormed(d, footer)
    ensures Footers.Parse(footer).Ok? && |Truncated(d)| >= HEADER_SIZE
    ensures ChooseFooter(Truncated(d)) == Ok(MirrorChoice(footer)) <==> Footers.Parse(LastSector(Truncated(d))).Err?
    ensures OpenSparse(Truncated(d), MirrorChoice(footer)).Ok? <==>
              !Footers.StartsWithCookie(LastSector(Truncated(d)))
              || MaxEnd(d.l, Table(d.l, d.dev)) <= d.tail - FOOTER_SIZE
  {
    hide Footers.Parse, Inv, Anchored, Flat, OpenSparse;
    TruncatedIsCut(d, footer);
    MirrorIsChosen(d.(dev := Truncated(d)), footer);
    CutOpens(d.(dev := Truncated(d)), footer);
  }

  /** Unless that sector begins with the cookie, nothing is lost, and the next allocation lies
      past every block. */
  lemma TruncationRecovers(d: Disk, footer: seq<byte>) returns (c: Choice, s: Sparse)
    requires WellFormed(d, footer) && d.tail >= FOOTER_SIZE
    requires !Footers.StartsWithCookie(LastSector(Truncated(d)))
    ensures ChooseFooter(Truncated(d)) == Ok(c) && c.fromMirror && c.bytes == footer
    ensures OpenSparse(Truncated(d), c) == Ok(s) && s.l == d.l && s.bat == Table(d.l, d.dev)
    ensures Contents(DiskOf(Truncated(d), s)) == Contents(d)
    ensures Inv(DiskOf(Truncated(d), s)) <==> NamesBlock(s.bat) || d.tail - FOOTER_SIZE >= d.l.dataStart
    ensures forall i {:trigger s.bat[i]} :: 0 <= i < |s.bat| && s.bat[i] != UNALLOCATED ==>
              Home(s.bat[i]) + d.l.Total() <= s.tail
    ensures s.tail == Max(d.tail - FOOTER_SIZE, MaxEnd(d.l, s.bat))
  {
    hide Footers.Parse, Inv, Anchored, Flat, OpenSparse;
    TruncatedIsCut(d, footer);
    c, s := CutRecovers(d.(dev := Truncated(d)), footer);
  }

  // ---- Writing to a cut image ----

  /** Block `k` is the last thing on the device. */
  ghost predicate EndsInBlock(d: Disk, k: nat) {
    k < |d.bat| && d.bat[k] != UNALLOCATED && Home(d.bat[k]) + d.l.Total() == d.tail
  }

  /** After `data` is written at `offset`, the last sector of block `k` begins with the
      footer's cookie: decided by the payload where it covers those eight bytes. */
  ghost predicate CookieAfter(d: Disk, k: nat, offset: nat, data: seq<byte>)
    requires d.l.blockSize >= SECTOR && k < |d.bat|
  {
    forall j {:trigger Footers.COOKIE[j]} :: 0 <= j < 8 ==>
      WrittenByte(d.l, d.dev, Home(d.bat[k]), Base(d.l, k), offset, data, d.l.blockSize - SECTOR + j) ==
        Footers.COOKIE[j]
  }

  lemma LastSectorOfBlock(l: Layout, dev: seq<byte>, home: nat)
    requires l.blockSize >= SECTOR && |dev| == home + l.Total()
    ensures Footers.StartsWithCookie(LastSector(dev)) <==> CookieStands(l, dev, home)
  {
    var s := LastSector(dev);
    forall j | 0 <= j < 8 ensures s[..8][j] == Datum(l, dev, home, l.blockSize - SECTOR + j) {
      assert s[j] == dev[|dev| - SECTOR + j];
    }
  }

  lemma EndsAtMax(d: Disk, k: nat)
    requires Inv(d) && EndsInBlock(d, k)
    ensures MaxEnd(d.l, Table(d.l, d.dev)) == d.tail
  {
    var t := Table(d.l, d.dev);
    assert t[k] == d.bat[k];
    FitsBelowExactly(d.l, t, d.l.dataStart, d.tail, d.tail);
  }

  /** A guest that has the cookie at the start of its last sector has it on the device. */
  lemma GuestCookieIsOnDevice(d: Disk, k: nat, v: nat)
    requires Inv(d) && EndsInBlock(d, k) && |d.dev| == d.tail
    requires v == Base(d.l, k) + d.l.blockSize - SECTOR && v + 8 <= d.l.virtualSize
    requires Contents(d)[v..v + 8] == Footers.COOKIE
    ensures |d.dev| >= FOOTER_SIZE && Footers.StartsWithCookie(LastSector(d.dev))
  {
    var l := d.l;
    forall j | 0 <= j < 8 ensures Datum(l, d.dev, Home(d.bat[k]), l.blockSize - SECTOR + j) == Footers.COOKIE[j] {
      DivMod(v + j, l.blockSize, k, l.blockSize - SECTOR + j);
      FlatUnfolds(l, d.dev, d.bat, v + j, k, l.blockSize - SECTOR + j);
      assert Contents(d)[v..v + 8][j] == Contents(d)[v + j];
    }
    LastSectorOfBlock(l, d.dev, Home(d.bat[k]));
  }

  /** What a caller need look at: the payload, if it covers the start of the last sector. */
  lemma CookieInPayload(d: Disk, k: nat, v: nat, offset: nat, data: seq<byte>)
    requires d.l.blockSize >= SECTOR && k < |d.bat| && v == Base(d.l, k) + d.l.blockSize - SECTOR
    requires offset <= v && v + 8 <= offset + |data|
    ensures CookieAfter(d, k, offset, data) <==> data[v - offset..v - offset + 8] == Footers.COOKIE
  {
    var head := data[v - offset..v - offset + 8];
    forall j | 0 <= j < 8
      ensures head[j] == WrittenByte(d.l, d.dev, Home(d.bat[k]), Base(d.l, k), offset, data, d.l.blockSize - SECTOR + j)
    {
    }
    if CookieAfter(d, k, offset, data) {
      forall j | 0 <= j < 8 ensures head[j] == Footers.COOKIE[j] {
      }
    }
  }

  /** And the device's last sector as it stands, if the write stays clear of it. */
  lemma CookieAlreadyThere(d: Disk, k: nat, v: nat, offset: nat, data: seq<byte>)
    requires Inv(d) && EndsInBlock(d, k) && |d.dev| == d.tail && v == Base(d.l, k) + d.l.blockSize - SECTOR
    requires !Overlaps(v, SECTOR, offset, |data|)
    ensures |d.dev| >= FOOTER_SIZE
    ensures CookieAfter(d, k, offset, data) <==> Footers.StartsWithCookie(LastSector(d.dev))
  {
    hide WrittenByte, Datum, Base, TableFits, Agrees;
    LastSectorOfBlock(d.l, d.dev, Home(d.bat[k]));
    forall j {:trigger Footers.COOKIE[j]} | 0 <= j < 8
      ensures WrittenByte(d.l, d.dev, Home(d.bat[k]), Base(d.l, k), offset, data, d.l.blockSize - SECTOR + j) ==
              Datum(d.l, d.dev, Home(d.bat[k]), d.l.blockSize - SECTOR + j)
    {
      HeadUntouched(d.l, d.dev, Home(d.bat[k]), Base(d.l, k), offset, data, j);
    }
  }

  lemma HeadUntouched(l: Layout, dev: seq<byte>, home: nat, base: nat, offset: nat, data: seq<byte>, j: nat)
    requires l.Valid() && j < 8 && !Overlaps(base + l.blockSize - SECTOR, SECTOR, offset, |data|)
    ensures WrittenByte(l, dev, home, base, offset, data, l.blockSize - SECTOR + j) ==
            Datum(l, dev, home, l.blockSize - SECTOR + j)
  {
    LastSectorStart(l.blockSize, j);
  }

  lemma LastSectorStart(blockSize: nat, j: nat)
    requires blockSize % SECTOR == 0 && blockSize >= SECTOR && j < 8
    ensures (blockSize - SECTOR + j) / SECTOR * SECTOR == blockSize - SECTOR
  {
  }

  /** The first eight bytes of the last sector of block `k` are the cookie's, when what the
      payload does not cover is final, and of what it covers all below byte `i` and no more. */
  ghost predicate CookieAt(d: Disk, k: nat, offset: nat, data: seq<byte>, i: nat)
    requires d.l.blockSize >= SECTOR && k < |d.bat|
  {
    var home, base, q := Home(d.bat[k]), Base(d.l, k), d.l.blockSize - SECTOR;
    forall j {:trigger Footers.COOKIE[j]} :: 0 <= j < 8 ==>
      Footers.COOKIE[j] ==
        if j < i || !(offset <= base + q + j < offset + |data|) then WrittenByte(d.l, d.dev, home, base, offset, data,
          q + j)
        else Datum(d.l, d.dev, home, q + j)
  }

  /** A caller can tell from the old contents and the payload whether the cookie stands there
      at some point of the write. */
  ghost predicate CookieOnTheWay(d: Disk, k: nat, offset: nat, data: seq<byte>)
    requires d.l.blockSize >= SECTOR && k < |d.bat|
  {
    || CookieStands(d.l, d.dev, Home(d.bat[k]))
    || exists i: nat :: i <= 8 && CookieAt(d, k, offset, data, i)
  }

  ghost predicate CookieStands(l: Layout, dev: seq<byte>, home: nat)
    requires l.blockSize >= SECTOR
  {
    forall j {:trigger Footers.COOKIE[j]} :: 0 <= j < 8 ==>
      Datum(l, dev, home, l.blockSize - SECTOR + j) == Footers.COOKIE[j]
  }

  /** A write to an image cut by its footer, however it ends: done, failed or cut short by a
      crash.  The image reopens as itself if and only if the device has grown, which an
      allocation does before anything else, or what now stands at the start of the last sector
      is not the cookie; when that can be told before the call, the image reopens whatever
      happens to the write.  Once done, the write itself tells: it had to allocate, or it does
      not leave the cookie there. */
  method WriteToCut(rd: VhdReader, k: nat, offset: nat, data: seq<byte>) returns (r: Outcome)
    requires rd.Ready() && Cut(rd.State(), rd.footerBytes) && EndsInBlock(rd.State(), k)
    requires offset + |data| <= rd.virtualSize
    modifies rd`bat, rd`nextAlloc, rd.dev, rd.dev.env
    ensures rd.Ready() && |rd.dev.bytes| >= FOOTER_SIZE
    ensures ReopensAs(rd.dev.bytes, rd.L()) <==>
              |rd.dev.bytes| > |old(rd.dev.bytes)| || !Footers.StartsWithCookie(LastSector(rd.dev.bytes))
    ensures !old(CookieOnTheWay(rd.State(), k, offset, data)) ==> ReopensAs(rd.dev.bytes, rd.L())
    ensures Mixed(old(Contents(rd.State())), Contents(rd.State()), offset, data)
    ensures r.Pass? ==>
              && Contents(rd.State()) == Splice(old(Contents(rd.State())), offset, data)
              && (ReopensAs(rd.dev.bytes, rd.L()) <==>
                    || old(Unplaced(rd.L(), rd.bat, offset, |data|)) != {}
                    || !old(CookieAfter(rd.State(), k, offset, data)))
    ensures rd.writable && rd.dev.env.faults == old(rd.dev.env.faults) ==>
              (r.Pass? <==> old(Room(rd.State(), offset, |data|)))
  {
    hide Inv, Keeps, Anchored, Flat, Mixed, Landed, Unplaced, Room, Allotted, BlocksMixed, CookieAfter, CookieOnTheWay,
      ReopensAs, LayoutOf, Splice;
    ghost var d0 := rd.State();
    InvIsBounded(d0);
    EndsAtMax(d0, k);
    r := rd.WriteAt(offset, data);
    ReopensUnlessCookie(d0, rd.State(), rd.footerBytes);
    if !CookieOnTheWay(d0, k, offset, data) && |rd.dev.bytes| <= |d0.dev| {
      MixedOnCut(d0, rd.State(), k, offset, data, rd.footerBytes);
    }
    if r.Pass? {
      LandedOnCut(d0, rd.State(), k, offset, data, rd.footerBytes);
    }
  }

  /** After any step. */
  lemma ReopensUnlessCookie(d0: Disk, d1: Disk, footer: seq<byte>)
    requires CutFull(d0, footer) && Keeps(d0, d1, footer)
    ensures |d1.dev| >= FOOTER_SIZE && d1.l == d0.l && |d0.dev| <= |d1.dev|
    ensures ReopensAs(d1.dev, d0.l) <==>
              |d1.dev| > |d0.dev| || !Footers.StartsWithCookie(LastSector(d1.dev))
  {
    hide Anchored, Recoverable, ReopensAs, MaxEnd;
    CutBounds(d0, footer);
    KeepsCached(d0, d1, footer);
    KeepsRooted(d0, d1, footer);
    if |d1.dev| > |d0.dev| {
      RecoverableReopensAs(d1, footer);
    } else {
      CutReopens(d1, footer);
    }
  }

  lemma MixedOnCut(d0: Disk, d1: Disk, k: nat, offset: nat, data: seq<byte>, footer: seq<byte>)
    requires Cut(d0, footer) && EndsInBlock(d0, k) && d0.l.Valid() && |d1.dev| == |d0.dev| >= FOOTER_SIZE
    requires BlocksMixed(d0, d1.dev, offset, data) && !CookieOnTheWay(d0, k, offset, data)
    ensures !Footers.StartsWithCookie(LastSector(d1.dev))
  {
    hide Inv, Anchored, CookieStands, BlockMixture;
    LastSectorOfBlock(d0.l, d1.dev, Home(d0.bat[k]));
    assert BlockMixture(d0.l, d0.dev, d1.dev, Home(d0.bat[k]), Base(d0.l, k), offset, data);
    if CookieStands(d0.l, d1.dev, Home(d0.bat[k])) {
      CookieWasOnTheWay(d0, d1.dev, k, offset, data);
    }
  }

  /** The cookie that a mixture shows is one that the write passes through. */
  lemma CookieWasOnTheWay(d: Disk, dev': seq<byte>, k: nat, offset: nat, data: seq<byte>)
    requires d.l.Valid() && k < |d.bat| && CookieStands(d.l, dev', Home(d.bat[k]))
    requires BlockMixture(d.l, d.dev, dev', Home(d.bat[k]), Base(d.l, k), offset, data)
    ensures CookieOnTheWay(d, k, offset, data)
  {
    hide Datum, WrittenByte, Base;
    var home, q := Home(d.bat[k]), d.l.blockSize - SECTOR;
    var i := LandedUpTo(d, dev', k, offset, data, 8);
    if i > 0 {
      assert Datum(d.l, dev', home, q + i - 1) != Datum(d.l, d.dev, home, q + i - 1);
      assert CookieAt(d, k, offset, data, i);
    } else {
      forall j {:trigger Footers.COOKIE[j]} | 0 <= j < 8 ensures Datum(d.l, d.dev, home, q + j) == Footers.COOKIE[j] {
        if !(offset <= Base(d.l, k) + q + j < offset + |data|) {
          FillIsZero(d.l, d.dev, home, Base(d.l, k), offset, data, q + j);
        }
        assert Datum(d.l, dev', home, q + j) == Footers.COOKIE[j];
      }
    }
  }

  /** The first of the eight bytes from which on no byte of the payload is seen to have landed. */
  lemma {:induction false} LandedUpTo(d: Disk, dev': seq<byte>, k: nat, offset: nat, data: seq<byte>, n: nat)
    returns (i: nat)
    requires d.l.blockSize >= SECTOR && k < |d.bat| && n <= 8
    ensures var home, base, q := Home(d.bat[k]), Base(d.l, k), d.l.blockSize - SECTOR;
            && i <= n
            && (forall r {:trigger Datum(d.l, dev', home, r)} ::
                  q + i <= r < q + n && offset <= base + r < offset + |data| ==>
                    Datum(d.l, dev', home, r) == Datum(d.l, d.dev, home, r))
            && (i > 0 ==>
                  && offset <= base + q + i - 1 < offset + |data|
                  && Datum(d.l, dev', home, q + i - 1) != Datum(d.l, d.dev, home, q + i - 1))
  {
    var home, last := Home(d.bat[k]), d.l.blockSize - SECTOR + n - 1;
    if n == 0 {
      i := 0;
    } else if offset <= Base(d.l, k) + last < offset + |data|
              && Datum(d.l, dev', home, last) != Datum(d.l, d.dev, home, last)
    {
      i := n;
    } else {
      i := LandedUpTo(d, dev', k, offset, data, n - 1);
    }
  }

  /** What a write leaves outside its own range is the old byte or zero. */
  lemma FillIsZero(l: Layout, dev: seq<byte>, home: nat, base: nat, offset: nat, data: seq<byte>, r: nat)
    requires !(offset <= base + r < offset + |data|)
    ensures WrittenByte(l, dev, home, base, offset, data, r) in {Datum(l, dev, home, r), 0}
  {
  }

  lemma LandedOnCut(d0: Disk, d1: Disk, k: nat, offset: nat, data: seq<byte>, footer: seq<byte>)
    requires CutFull(d0, footer) && EndsInBlock(d0, k) && d0.l.blockSize >= SECTOR
    requires Keeps(d0, d1, footer) && Landed(d0, d1, offset, data, footer)
    ensures ReopensAs(d1.dev, d0.l) <==>
              Unplaced(d0.l, d0.bat, offset, |data|) != {} || !CookieAfter(d0, k, offset, data)
  {
    hide Inv, Anchored, Recoverable, Unplaced, Allotted, ReopensAs, MaxEnd, WrittenByte, Datum;
    KeepsCached(d0, d1, footer);
    ReopensUnlessCookie(d0, d1, footer);
    if Unplaced(d0.l, d0.bat, offset, |data|) == {} {
      LastSectorOfBlock(d0.l, d1.dev, Home(d0.bat[k]));
      assert BlockWritten(d0.l, d0.dev, d1.dev, Home(d0.bat[k]), Base(d0.l, k), offset, data);
    } else {
      RecoverableReopensAs(d1, footer);
    }
  }

  /** The write to block `k` alone, with its partly covered sectors defined on `dev1`. */
  ghost predicate ReadyForPayload(d: Disk, dev1: seq<byte>, k: nat, inBlock: nat, data: seq<byte>) {
    && d.l.Valid() && EndsInBlock(d, k) && |d.dev| == |dev1| == d.tail
    && 0 < |data| && inBlock + |data| <= d.l.blockSize
    && UncoveredMixed(d.l, d.dev, dev1, Home(d.bat[k]), inBlock, |data|)
    && SameViews(d.l, d.dev, dev1, Home(d.bat[k]))
    && PartialsDefined(d.l, dev1, Home(d.bat[k]), inBlock, |data|)
  }

  /** The device after `p` bytes of that payload. */
  function PayloadUpTo(d: Disk, dev1: seq<byte>, k: nat, inBlock: nat, data: seq<byte>, p: nat): (r: seq<byte>)
    requires k < |d.bat| && p <= |data| && Home(d.bat[k]) + d.l.bitmapSize + inBlock + |data| <= |dev1|
    ensures |r| == |dev1|
  {
    Splice(dev1, Home(d.bat[k]) + d.l.bitmapSize + inBlock, data[..p])
  }

  lemma ByteAtPoint(d: Disk, dev1: seq<byte>, k: nat, inBlock: nat, data: seq<byte>, p: nat, r: nat)
    requires ReadyForPayload(d, dev1, k, inBlock, data) && p <= |data| && r < d.l.blockSize
    ensures Datum(d.l, PayloadUpTo(d, dev1, k, inBlock, data, p), Home(d.bat[k]), r) ==
            if inBlock + p <= r < inBlock + |data| then Datum(d.l, d.dev, Home(d.bat[k]), r)
            else WrittenByte(d.l, d.dev, Home(d.bat[k]), Base(d.l, k), Base(d.l, k) + inBlock, data, r)
  {
    hide SameViews, PartialsDefined;
    var home := Home(d.bat[k]);
    assert Datum(d.l, PayloadUpTo(d, dev1, k, inBlock, data, p), home, r) ==
           if inBlock <= r < inBlock + p then data[r - inBlock] else Datum(d.l, dev1, home, r);
    if inBlock <= r < inBlock + |data| {
      assert Datum(d.l, dev1, home, r) == Datum(d.l, d.dev, home, r);
    } else {
      DefinedIsRaw(d.l, d.dev, dev1, home, inBlock, data, r);
      TouchedIsOverlap(inBlock, |data|, r / SECTOR);
    }
  }

  lemma CookieAtPoint(d: Disk, dev1: seq<byte>, k: nat, inBlock: nat, data: seq<byte>, p: nat, i: nat)
    requires ReadyForPayload(d, dev1, k, inBlock, data) && p <= |data|
    requires var q := d.l.blockSize - SECTOR;
             forall j {:trigger Footers.COOKIE[j]} :: 0 <= j < 8 && inBlock <= q + j < inBlock + |data| ==>
               (j < i <==> q + j < inBlock + p)
    ensures Footers.StartsWithCookie(LastSector(PayloadUpTo(d, dev1, k, inBlock, data, p))) <==>
              CookieAt(d, k, Base(d.l, k) + inBlock, data, i)
  {
    hide Datum, WrittenByte, Base, SameViews, PartialsDefined, UncoveredMixed;
    var q, dev2 := d.l.blockSize - SECTOR, PayloadUpTo(d, dev1, k, inBlock, data, p);
    LastSectorOfBlock(d.l, dev2, Home(d.bat[k]));
    forall j {:trigger Footers.COOKIE[j]} | 0 <= j < 8
      ensures Datum(d.l, dev2, Home(d.bat[k]), q + j) ==
              if j < i || !(inBlock <= q + j < inBlock + |data|)
              then WrittenByte(d.l, d.dev, Home(d.bat[k]), Base(d.l, k), Base(d.l, k) + inBlock, data, q + j)
              else Datum(d.l, d.dev, Home(d.bat[k]), q + j)
    {
      var c := Footers.COOKIE[j];
      ByteAtPoint(d, dev1, k, inBlock, data, p, q + j);
    }
  }

  /** The condition is exact: the cookie is on the way if and only if it stands there before the
      write or after some part of the payload's own operation.  That neither the old bytes nor
      the new are the cookie is not enough. */
  lemma CookieOnTheWayIsExact(d: Disk, dev1: seq<byte>, k: nat, inBlock: nat, data: seq<byte>)
    requires ReadyForPayload(d, dev1, k, inBlock, data)
    ensures |d.dev| >= FOOTER_SIZE
    ensures CookieOnTheWay(d, k, Base(d.l, k) + inBlock, data) <==>
              || Footers.StartsWithCookie(LastSector(d.dev))
              || exists p: nat {:trigger PayloadUpTo(d, dev1, k, inBlock, data, p)} ::
                   p <= |data| && Footers.StartsWithCookie(LastSector(PayloadUpTo(d, dev1, k, inBlock, data, p)))
  {
    hide Footers.StartsWithCookie, CookieAt, LastSector, PayloadUpTo, UncoveredMixed, SameViews, PartialsDefined, Base,
      CookieStands;
    var q, offset := d.l.blockSize - SECTOR, Base(d.l, k) + inBlock;
    LastSectorOfBlock(d.l, d.dev, Home(d.bat[k]));
    if p: nat :| p <= |data| && Footers.StartsWithCookie(LastSector(PayloadUpTo(d, dev1, k, inBlock, data, p))) {
      CookieAtPoint(d, dev1, k, inBlock, data, p, Least(Monus(inBlock + p, q), 8));
    }
    if i: nat :| i <= 8 && CookieAt(d, k, offset, data, i) {
      var p := Least(Monus(q + i, inBlock), |data|);
      CookieAtPoint(d, dev1, k, inBlock, data, p, i);
      assert Footers.StartsWithCookie(LastSector(PayloadUpTo(d, dev1, k, inBlock, data, p)));
    }
  }

  lemma RecoverableReopensAs(d: Disk, footer: seq<byte>)
    requires Inv(d) && Recoverable(d, footer)
    ensures ReopensAs(d.dev, d.l)
  {
    hide Inv, Recoverable, ChooseFooter, OpenSparse, Flat;
    var c, s := RecoverableReopens(d, footer);
  }

  // ---- An image with no block yet ----

  /** The family for which it is not: an image with no block yet, cut back to its table.  It
      opens, all zero as before, with its tail inside its own table, so that the first block
      written would be laid over table entries. */
  lemma EmptyImageCutToItsTable(size: nat, blockSize: nat, dev: seq<byte>, footer: seq<byte>, header: seq<byte>,
    f: Footers.Footer)
    returns (c: Choice, s: Sparse)
    requires size > 0 && Headers.ValidBlockSize(blockSize) && DivCeil(size, blockSize) <= MAX_CREATE_BAT_ENTRIES
    requires LaidOut(CreatedLayout(size, blockSize), dev, footer, header)
    requires Footers.Parse(footer) == Ok(f) && f.dataOffset == HEADER_OFFSET && f.currentSize == size
             && f.diskType.Dynamic?
    requires Headers.Parse(header) == Ok(Headers.EmptyHeader(TABLE_OFFSET, DivCeil(size, blockSize), blockSize))
    ensures var l := CreatedLayout(size, blockSize);
            && ChooseFooter(dev[..l.dataStart]) == Ok(c) && OpenSparse(dev[..l.dataStart], c) == Ok(s)
            && s.l == l && s.tail == l.dataStart - FOOTER_SIZE && l.tableOffset <= s.tail
            && Within(l.TableEnd() - 1, s.tail, s.tail + l.Total()) && !Inv(DiskOf(dev[..l.dataStart], s))
            && AllZero(Contents(DiskOf(dev[..l.dataStart], s)))
            && forall k: nat :: HeaderClear(c.footer, l, s.tail, k)
  {
    hide Footers.Parse, Headers.Parse, LayoutOf, Headers.EmptyHeader, Flat, Anchored, SparseHeader;
    var l := CreatedLayout(size, blockSize);
    var d := Disk(l, dev, Table(l, dev), l.dataStart);
    LaidOutIsInOrder(size, blockSize, dev, footer, header, f);
    LaidOutSections(l, dev, footer, header);
    TableNotEmpty(size, blockSize);
    assert Truncated(d) == dev[..l.dataStart];
    assert LastSector(Truncated(d))[0] == At(dev, l.dataStart - FOOTER_SIZE) == 0xFF;
    c, s := TruncationRecovers(d, footer);
    TruncatedOpens(d, footer);
    assert !NamesBlock(Table(l, dev));
    assert MaxEnd(l, Table(l, dev)) == 0;
    ChosenFooterFacts(dev[..l.dataStart], c);
  }

  /** A disk of at least one byte has at least one table entry, so its table fills a sector. */
  lemma TableNotEmpty(size: nat, blockSize: nat)
    requires size > 0 && blockSize > 0
    ensures var l := CreatedLayout(size, blockSize);
            l.tableOffset + FOOTER_SIZE <= l.dataStart && l.dataStart - FOOTER_SIZE < l.TableEnd()
  {
    var entries := DivCeil(size, blockSize);
    if entries == 0 {
      CoveredByBlocks(size, blockSize, 0);
    }
  }

  /** The header that the handle came from lies below its tail and clear of entry `k`. */
  predicate HeaderClear(f: Footers.Footer, l: Layout, tail: nat, k: nat) {
    && f.dataOffset + HEADER_SIZE <= tail
    && (f.dataOffset + HEADER_SIZE <= l.tableOffset + 4 * k || l.tableOffset + 4 * k + 4 <= f.dataOffset)
  }

  /** A handle on an image whose tail lies inside the metadata: one sector inside, and with no
      block named yet. */
  ghost predicate LowTail(rd: VhdReader)
    reads rd, rd.dev, rd.readers, rd.devices
  {
    && rd.InBounds() && rd.nextAlloc == rd.L().dataStart - SECTOR && !NamesBlock(rd.bat)
    && SparseHeader(rd.dev.bytes, rd.footer) == Ok(rd.header.value) && Footers.Parse(rd.footerBytes) == Ok(rd.footer)
  }

  /** What open returns, when the tail lies below the metadata's end. */
  lemma OpenedLow(rd: VhdReader)
    requires rd.Valid() && OpenedAs(rd, rd.dev, true) && rd.footer.diskType.Dynamic?
    ensures LowTail(rd) <==> !rd.Ready()
  {
    hide Footers.Parse, SparseHeader, LayoutOf, TableFits, LocatorsClear, ChooseFooter;
    var c := Choice(rd.footer, rd.footerBytes, rd.footerFromMirror);
    OpenedIsReady(rd, rd.dev, true);
    OpenedIsBounded(rd, rd.dev, true);
    ChosenFooterFacts(rd.dev.bytes, c);
    TailAboveMetadata(rd.dev.bytes, c);
    TailInsideMetadata(rd.dev.bytes, c);
  }

  /** No table that names a block below the data area passes. */
  lemma LowBlockRefused(dev: seq<byte>, l: Layout, k: nat)
    requires k < l.entries && Table(l, dev)[k] != UNALLOCATED && Home(Table(l, dev)[k]) < l.dataStart
    ensures !ReopensAs(dev, l)
    ensures |dev| >= FOOTER_SIZE ==> forall c: Choice {:trigger OpenSparse(dev, c)} ::
                SparseHeader(dev, c.footer).Ok? && LayoutOf(c.footer, SparseHeader(dev, c.footer).value) == l ==>
                  OpenSparse(dev, c).Err?
  {
    hide Table, SparseHeader, LayoutOf, ChooseFooter, LocatorsClear;
  }

  /** Where the header still stands, such an image does not open at all. */
  lemma LowBlockUnopenable(d: Disk, dev': seq<byte>, f: Footers.Footer, h: Headers.DynamicHeader,
    footer: seq<byte>, k: nat)
    requires Placed(d, dev', k) && HeaderClear(f, d.l, d.tail, k) && d.tail <= |d.dev|
    requires SparseHeader(d.dev, f) == Ok(h) && LayoutOf(f, h) == d.l && f.diskType.Dynamic?
    requires d.tail + SECTOR <= |dev'| && |dev'| % SECTOR == 0 && d.l.dataStart <= d.tail + SECTOR
    requires EndsIn(dev', footer) && Footers.Parse(footer) == Ok(f)
    requires k < d.l.entries && Table(d.l, dev')[k] != UNALLOCATED && Home(Table(d.l, dev')[k]) < d.l.dataStart
    ensures !Opens(dev', MAX_PARENT_DEPTH, None)
  {
    hide Footers.Parse, Headers.Parse, OpenSparse, Table, RoundToSector;
    SameSlice(d.dev, dev', f.dataOffset, HEADER_SIZE);
    MetadataFits(d.dev, f);
    assert SparseHeader(dev', f) == Ok(h);
    LowBlockRefused(dev', d.l, k);
  }

  /** Entry `k` names the old tail, and from there on the metadata is zero around that entry. */
  ghost predicate Overlaid(d: Disk, dev': seq<byte>, k: nat)
    requires k < d.l.entries
  {
    && Table(d.l, dev')[k] == d.tail / SECTOR
    && forall a {:trigger At(dev', a)} ::
         d.tail <= a < d.l.dataStart && !(d.l.tableOffset + 4 * k <= a < d.l.tableOffset + 4 * k + 4) ==>
           At(dev', a) == 0
  }

  /** What a first allocation on such a handle does: the end of the metadata becomes zeros, but
      for the new entry, which names a block below the data area.  The image never reopens as
      itself again, and if its header still stands it is refused outright. */
  method AllocateInsideMetadata(rd: VhdReader, k: nat) returns (r: Result<nat>)
    requires LowTail(rd) && k < |rd.bat|
    modifies rd`bat, rd`nextAlloc, rd.dev, rd.dev.env
    ensures r.Ok? ==>
              && r.value == old(rd.nextAlloc) && Overlaid(old(rd.State()), rd.dev.bytes, k)
              && !ReopensAs(rd.dev.bytes, rd.L())
              && (HeaderClear(rd.footer, rd.L(), old(rd.nextAlloc), k) ==> !Opens(rd.dev.bytes, MAX_PARENT_DEPTH, None))
    ensures rd.dev.env.faults == old(rd.dev.env.faults) ==> (r.Ok? <==> old(rd.nextAlloc) / SECTOR < UNALLOCATED)
  {
    hide Footers.Parse, LayoutOf, Placed, ReopensAs, HeaderClear, Opens, ChooseFooter, SparseHeader, EndsIn, Table,
      Keeps, Inv, Recoverable, Anchored, AllEndIn, EndedInUntil, Blank, Flat;
    ghost var d0 := rd.State();
    r := rd.AllocateBlockLocked(k);
    if r.Ok? {
      BlockOverMetadata(d0, rd.dev.bytes, rd.footer, rd.header.value, rd.footerBytes, k);
    }
  }

  lemma BlockOverMetadata(d: Disk, dev': seq<byte>, f: Footers.Footer, h: Headers.DynamicHeader, footer: seq<byte>,
    k: nat)
    requires Bounded(d) && d.tail == d.l.dataStart - SECTOR && |dev'| == d.tail + d.l.Total() + FOOTER_SIZE
    requires SparseHeader(d.dev, f) == Ok(h) && LayoutOf(f, h) == d.l && f.diskType.Dynamic?
    requires EndsIn(dev', footer) && Footers.Parse(footer) == Ok(f) && Placed(d, dev', k)
    requires k < d.l.entries && Table(d.l, dev')[k] == d.tail / SECTOR < UNALLOCATED
    ensures Overlaid(d, dev', k) && !ReopensAs(dev', d.l)
    ensures HeaderClear(f, d.l, d.tail, k) ==> !Opens(dev', MAX_PARENT_DEPTH, None)
  {
    hide Footers.Parse, LayoutOf, ReopensAs, HeaderClear, Opens, SparseHeader, EndsIn, Table;
    WholeSectors(d.tail / SECTOR, d.l.bitmapSize, d.l.blockSize);
    LowBlockRefused(dev', d.l, k);
    if HeaderClear(f, d.l, d.tail, k) {
      LowBlockUnopenable(d, dev', f, h, footer, k);
    }
  }
}
