/** What one device operation of the write path may do, whether it succeeds, fails or is
    the last one before a crash. */
module Steps {
  import opened Bytes
  import opened Format
  import opened Blocks
  import opened Disks
  import opened Images
  import Footers

  /** No step takes back or re-issues space: the tail never retreats, an entry that changes
      on the device names a block at or past the tail that stood before, and a block in use
      stays in use. */
  ghost predicate Advances(d0: Disk, d1: Disk) {
    && d1.l == d0.l && |d0.bat| == |d1.bat| == d0.l.entries
    && d0.tail <= d1.tail
    && (forall i {:trigger Table(d1.l, d1.dev)[i]} :: 0 <= i < d0.l.entries ==>
          || Table(d1.l, d1.dev)[i] == Table(d0.l, d0.dev)[i]
          || (Table(d1.l, d1.dev)[i] != UNALLOCATED && d0.tail <= Home(Table(d1.l, d1.dev)[i])))
    && (forall i {:trigger d1.bat[i]} :: 0 <= i < d0.l.entries && d0.bat[i] != UNALLOCATED ==>
          d1.bat[i] == d0.bat[i])
  }

  /** Kept by every step: the invariant, the order of allocation, the metadata that anchors
      the image, recoverability, which an anchored image also gains as soon as its device
      grows, and a length that fits the device's 64-bit offsets. */
  ghost predicate Keeps(d0: Disk, d1: Disk, footer: seq<byte>) {
    && Inv(d1) && Advances(d0, d1)
    && (Anchored(d0.l, d0.dev, footer) ==> Anchored(d1.l, d1.dev, footer))
    && (Recoverable(d0, footer) ==> Recoverable(d1, footer))
    && (Anchored(d0.l, d0.dev, footer) && |d1.dev| > |d0.dev| ==> Recoverable(d1, footer))
    && (|d0.dev| < U64_LIMIT ==> |d1.dev| < U64_LIMIT)
  }

  lemma AdvancesTransitive(a: Disk, b: Disk, c: Disk)
    requires Advances(a, b) && Advances(b, c)
    ensures Advances(a, c)
  {
    forall i | 0 <= i < a.l.entries
      ensures Table(c.l, c.dev)[i] == Table(a.l, a.dev)[i]
           || (Table(c.l, c.dev)[i] != UNALLOCATED && a.tail <= Home(Table(c.l, c.dev)[i]))
    {
      assert Table(b.l, b.dev)[i] == Table(b.l, b.dev)[i];
    }
    forall i | 0 <= i < a.l.entries && a.bat[i] != UNALLOCATED ensures c.bat[i] == a.bat[i] {
      assert b.bat[i] == a.bat[i];
    }
  }

  lemma KeepsTransitive(a: Disk, b: Disk, c: Disk, footer: seq<byte>)
    requires Keeps(a, b, footer) && Keeps(b, c, footer)
    ensures Keeps(a, c, footer)
  {
    AdvancesTransitive(a, b, c);
  }

  lemma KeepsCached(d0: Disk, d1: Disk, footer: seq<byte>)
    requires Keeps(d0, d1, footer)
    ensures d1.l == d0.l && |d1.bat| == |d0.bat| && d1.l.blockSize > 0 && d0.tail <= d1.tail
    ensures forall i :: 0 <= i < |d0.bat| && d0.bat[i] != UNALLOCATED ==> d1.bat[i] == d0.bat[i]
  {
  }

  lemma KeepsItself(d: Disk, footer: seq<byte>)
    requires Inv(d)
    ensures Keeps(d, d, footer)
  {
  }

  lemma LengthBounds(d: Disk)
    requires Inv(d)
    ensures d.tail <= |d.dev| <= d.tail + d.l.Total() + FOOTER_SIZE && d.tail % SECTOR == 0
    ensures d.l.TableEnd() <= d.l.dataStart <= d.tail && |d.bat| == d.l.entries && d.l.blockSize > 0
  {
  }

  /** The same table and the same tail: nothing was allocated. */
  lemma AdvancesWithSameTable(d: Disk, dev': seq<byte>)
    requires |d.bat| == d.l.entries && Table(d.l, dev') == Table(d.l, d.dev)
    ensures Advances(d, d.(dev := dev'))
  {
  }

  /** A block named at any time and a block that is named only later share no byte. */
  lemma NothingHandedOutTwice(d0: Disk, d1: Disk, i: nat, j: nat)
    requires Inv(d0) && Advances(d0, d1)
    requires i < d0.l.entries && j < d0.l.entries
    requires Table(d0.l, d0.dev)[i] != UNALLOCATED
    requires Table(d1.l, d1.dev)[j] != Table(d0.l, d0.dev)[j]
    ensures Table(d1.l, d1.dev)[j] != UNALLOCATED
    ensures Apart(d0.l, Table(d0.l, d0.dev)[i], Table(d1.l, d1.dev)[j])
  {
  }

  lemma KeepsRecoverable(d0: Disk, d1: Disk, footer: seq<byte>)
    requires Keeps(d0, d1, footer)
    ensures Recoverable(d0, footer) ==> Recoverable(d1, footer)
    ensures Anchored(d0.l, d0.dev, footer) ==> Anchored(d1.l, d1.dev, footer)
  {
  }

  /** An allocation that changes nothing between the metadata and the tail changes no block. */
  lemma AllocationAside(d: Disk, dev': seq<byte>, k: nat)
    requires Inv(d) && SameOn(d.dev, dev', d.l.dataStart, d.tail)
    ensures OtherBlocks(d, dev', k)
  {
    forall i | 0 <= i < |d.bat| && i != k && d.bat[i] != UNALLOCATED
      ensures SameOn(d.dev, dev', Home(d.bat[i]), Home(d.bat[i]) + d.l.Total())
    {
      BlockBounds(d, i);
    }
  }

  // ---- Writing inside a block ----

  /** Changing bytes of one block, below the tail, keeps everything but that block. */
  lemma BlockWriteKeeps(d: Disk, dev': seq<byte>, k: nat, footer: seq<byte>)
    requires Inv(d) && k < d.l.entries && d.bat[k] != UNALLOCATED
    requires SameOutside(d.dev, dev', Home(d.bat[k]), Home(d.bat[k]) + d.l.Total())
    ensures Keeps(d, d.(dev := dev'), footer)
    ensures OthersKept(d.l, d.dev, dev', d.bat, k)
  {
    InsideBlock(d, dev', k);
    BlockBounds(d, k);
    AdvancesWithSameTable(d, dev');
    if Anchored(d.l, d.dev, footer) {
      AnchoredFrame(d.l, d.dev, dev', footer);
    }
    if Recoverable(d, footer) {
      BelowTailRecoverable(d, dev', Home(d.bat[k]), Home(d.bat[k]) + d.l.Total(), footer);
    }
  }

  lemma BlockBounds(d: Disk, k: nat)
    requires Inv(d) && k < d.l.entries && d.bat[k] != UNALLOCATED
    ensures d.l.dataStart <= Home(d.bat[k]) && Home(d.bat[k]) + d.l.Total() <= d.tail <= |d.dev|
  {
    assert Table(d.l, d.dev)[k] == d.bat[k];
  }

  lemma BelowTailRecoverable(d: Disk, dev': seq<byte>, lo: nat, hi: nat, footer: seq<byte>)
    requires d.l.Valid() && Recoverable(d, footer) && d.l.dataStart <= lo && hi <= d.tail && d.l.dataStart <= d.tail
    requires SameOutside(d.dev, dev', lo, hi)
    ensures Recoverable(d.(dev := dev'), footer)
  {
    hide Anchored, Footers.Parse, Footers.Torn;
    AnchoredFrame(d.l, d.dev, dev', footer);
    SameLastSector(d.dev, dev');
  }

  // ---- Preparing a block above the tail ----

  /** The footer's slot at the end of the device holds a torn copy of the footer. */
  ghost predicate TornSlot(dev: seq<byte>, footer: seq<byte>) {
    && |dev| >= FOOTER_SIZE && |footer| == FOOTER_SIZE
    && exists k {:trigger Footers.Torn(footer, k)} ::
         0 <= k <= FOOTER_SIZE && LastSector(dev) == Footers.Torn(footer, k)
  }

  /** While a block is being prepared: nothing below the tail has changed, the device has
      room for the block and the footer past it, and a table entry can name the block. */
  ghost predicate Preparing(d: Disk, dev': seq<byte>, footer: seq<byte>) {
    && SameOn(d.dev, dev', 0, d.tail)
    && |dev'| == d.tail + d.l.Total() + FOOTER_SIZE
    && (|d.dev| < |dev'| || Recoverable(d, footer) ==> TornSlot(dev', footer))
    && d.tail / SECTOR < UNALLOCATED
  }

  lemma PreparingKeeps(d: Disk, dev': seq<byte>, footer: seq<byte>)
    requires Inv(d) && Preparing(d, dev', footer)
    ensures Keeps(d, d.(dev := dev'), footer) && Inv(d.(dev := dev'))
    ensures Contents(d.(dev := dev')) == Contents(d)
  {
    hide Anchored, TornSlot, Flat;
    AboveTail(d, dev');
    AdvancesWithSameTable(d, dev');
    if Anchored(d.l, d.dev, footer) {
      PreparingAnchored(d, dev', footer);
      if TornSlot(dev', footer) {
        TornSlotRecoverable(d, dev', footer);
      }
    }
  }

  lemma PreparingAnchored(d: Disk, dev': seq<byte>, footer: seq<byte>)
    requires Inv(d) && Preparing(d, dev', footer) && Anchored(d.l, d.dev, footer)
    ensures Anchored(d.l, dev', footer)
  {
    AnchoredFrame(d.l, d.dev, dev', footer);
  }

  lemma TornSlotRecoverable(d: Disk, dev': seq<byte>, footer: seq<byte>)
    requires d.l.Valid() && d.l.dataStart <= d.tail && Anchored(d.l, d.dev, footer)
    requires SameOn(d.dev, dev', 0, d.tail) && |dev'| == d.tail + d.l.Total() + FOOTER_SIZE
    requires TornSlot(dev', footer)
    ensures Recoverable(d.(dev := dev'), footer)
  {
    AnchoredFrame(d.l, d.dev, dev', footer);
    var k :| 0 <= k <= FOOTER_SIZE && LastSector(dev') == Footers.Torn(footer, k);
    Footers.TornFooterIsWholeOrRefused(footer, k);
  }

  /** Growing the device by zeros, or finding it already grown. */
  lemma GrownIsPreparing(d: Disk, dev': seq<byte>, footer: seq<byte>)
    requires Inv(d) && |footer| == FOOTER_SIZE && d.tail / SECTOR < UNALLOCATED
    requires |dev'| == d.tail + d.l.Total() + FOOTER_SIZE
    requires |d.dev| < |dev'| ==> dev' == Grow(d.dev, |dev'|)
    requires |d.dev| >= |dev'| ==> dev' == d.dev
    ensures Preparing(d, dev', footer)
  {
    if |d.dev| < |dev'| {
      GrownSlotIsZero(d, dev', footer);
    }
  }

  lemma GrownSlotIsZero(d: Disk, dev': seq<byte>, footer: seq<byte>)
    requires d.l.Valid() && |footer| == FOOTER_SIZE && |d.dev| <= d.tail + FOOTER_SIZE
    requires |dev'| == d.tail + d.l.Total() + FOOTER_SIZE && dev' == Grow(d.dev, |dev'|)
    ensures TornSlot(dev', footer)
  {
    GrownEndsInZeros(d.dev, dev');
    assert LastSector(dev') == Footers.Torn(footer, 0);
  }

  /** Right after a growth by at least a sector the device ends in no footer at all. */
  lemma GrownEndsInZeros(dev: seq<byte>, dev': seq<byte>)
    requires |dev| + FOOTER_SIZE <= |dev'| && dev' == Grow(dev, |dev'|)
    ensures LastSector(dev') == Zeros(FOOTER_SIZE)
    ensures Footers.Parse(LastSector(dev')).Err?
  {
    var n := |dev'| - FOOTER_SIZE;
    forall i | 0 <= i < FOOTER_SIZE ensures LastSector(dev')[i] == 0 {
      assert At(dev', n + i) == At(dev, n + i);
    }
    assert LastSector(dev')[..8][0] != Footers.COOKIE[0];
  }

  /** Making room is either not needed or leaves a device that ends in zeros. */
  lemma GrowthSeen(d: Disk, dev': seq<byte>, footer: seq<byte>)
    requires Bounded(d)
    requires var end := d.tail + d.l.Total() + FOOTER_SIZE;
             dev' == if |d.dev| < end then Grow(d.dev, end) else d.dev
    ensures dev' == d.dev || |d.dev| < |dev'|
    ensures dev' != d.dev && Footers.StartsWithCookie(footer) ==> !EndsIn(dev', footer)
  {
    if dev' != d.dev && Footers.StartsWithCookie(footer) {
      GrownEndsInZeros(d.dev, dev');
      assert footer[..8][0] == Footers.COOKIE[0];
    }
  }

  lemma SeenMore(seen: set<seq<byte>>, dev: seq<byte>, footer: seq<byte>)
    requires EndsIn(dev, footer)
    ensures AllEndIn(seen, footer) ==> AllEndIn(seen + {dev}, footer)
  {
  }

  /** A write inside the table does not touch the end of the device. */
  lemma EntryElsewhere(d: Disk, dev: seq<byte>, dev': seq<byte>, footer: seq<byte>)
    requires Bounded(d) && |dev| == d.tail + d.l.Total() + FOOTER_SIZE && EndsIn(dev, footer)
    requires SameOutside(dev, dev', d.l.tableOffset, d.l.TableEnd())
    ensures EndsIn(dev', footer)
  {
    SameLastSector(dev, dev');
  }

  /** Nothing else the device has had ended in anything but the footer. */
  ghost predicate EndedInUntil(seen: set<seq<byte>>, dev: seq<byte>, footer: seq<byte>) {
    dev in seen && AllEndIn(seen - {dev}, footer)
  }

  lemma SeenStill(seen0: set<seq<byte>>, dev: seq<byte>, seen: set<seq<byte>>, footer: seq<byte>)
    requires seen0 <= seen <= seen0 + {dev}
    ensures EndedInUntil(seen0, dev, footer) ==> (AllEndIn(seen, footer) <==> EndsIn(dev, footer))
  {
    if EndedInUntil(seen0, dev, footer) {
      GrowthDecides(seen0, dev, dev, seen, seen, footer);
    }
  }

  /** An allocation shows a device without its trailing footer if and only if it had none to
      begin with or had to make room. */
  lemma GrowthDecides(seen0: set<seq<byte>>, dev: seq<byte>, dev1: seq<byte>, seen1: set<seq<byte>>,
    seen: set<seq<byte>>, footer: seq<byte>)
    requires EndedInUntil(seen0, dev, footer) && seen0 <= seen1 <= seen0 + {dev1} && seen1 <= seen
    requires dev1 != dev ==> dev1 in seen1 && !EndsIn(dev1, footer)
    requires EndsIn(dev1, footer) && AllEndIn(seen1, footer) ==> AllEndIn(seen, footer)
    ensures AllEndIn(seen, footer) <==> EndsIn(dev, footer) && dev1 == dev
  {
    hide EndsIn;
    if EndsIn(dev, footer) && dev1 == dev {
      forall b | b in seen1 ensures EndsIn(b, footer) {
        assert b == dev || b in seen0 - {dev};
      }
    }
  }

  lemma KeepsAnchored(d0: Disk, d1: Disk, footer: seq<byte>)
    requires Keeps(d0, d1, footer) && |d1.dev| == d1.tail + FOOTER_SIZE && EndsIn(d1.dev, footer)
    ensures Anchored(d0.l, d0.dev, footer) ==> Recoverable(d1, footer)
  {
  }

  /** A torn write of the footer over a torn copy of it is a torn copy. */
  lemma FooterWriteTorn(dev: seq<byte>, dev': seq<byte>, footer: seq<byte>, j: nat)
    requires |dev| >= FOOTER_SIZE && |footer| == FOOTER_SIZE && j <= FOOTER_SIZE
    requires dev' == Splice(dev, |dev| - FOOTER_SIZE, footer[..j])
    ensures TornSlot(dev, footer) ==> TornSlot(dev', footer)
    ensures j == FOOTER_SIZE || EndsIn(dev, footer) ==> EndsIn(dev', footer)
  {
    var n := |dev| - FOOTER_SIZE;
    forall i | 0 <= i < FOOTER_SIZE
      ensures LastSector(dev')[i] == if i < j then footer[i] else LastSector(dev)[i]
    {
      assert At(dev', n + i) == if i < j then footer[..j][i] else At(dev, n + i);
    }
    if TornSlot(dev, footer) {
      TornOverTorn(dev, dev', footer, j);
    }
    assert j == FOOTER_SIZE || EndsIn(dev, footer) ==> LastSector(dev') == footer;
  }

  lemma TornOverTorn(dev: seq<byte>, dev': seq<byte>, footer: seq<byte>, j: nat)
    requires TornSlot(dev, footer) && |dev'| == |dev| && j <= FOOTER_SIZE
    requires forall i :: 0 <= i < FOOTER_SIZE ==> LastSector(dev')[i] == if i < j then footer[i] else LastSector(dev)[i]
    ensures TornSlot(dev', footer)
  {
    var k :| 0 <= k <= FOOTER_SIZE && LastSector(dev) == Footers.Torn(footer, k);
    assert LastSector(dev') == Footers.Torn(footer, if j < k then k else j);
  }

  lemma WholeFooterIsTorn(dev: seq<byte>, footer: seq<byte>)
    requires EndsIn(dev, footer)
    ensures TornSlot(dev, footer)
  {
    assert LastSector(dev) == Footers.Torn(footer, FOOTER_SIZE);
  }

  /** Writing the footer and zeroing the block goes on where making room left off. */
  lemma PreparationKept(d: Disk, dev: seq<byte>, dev': seq<byte>, footer: seq<byte>)
    requires Inv(d) && Preparing(d, dev, footer) && SameOutside(dev, dev', d.tail, |dev|)
    requires TornSlot(dev, footer) ==> TornSlot(dev', footer)
    ensures Preparing(d, dev', footer) && SameOn(d.dev, dev', d.l.dataStart, d.tail)
    ensures Keeps(d, d.(dev := dev'), footer) && Inv(d.(dev := dev'))
    ensures Contents(d.(dev := dev')) == Contents(d)
  {
    hide TornSlot, Recoverable, Anchored, Flat, Keeps;
    PreparingKeeps(d, dev', footer);
  }

  // ---- Committing the block ----

  /** The block is zeroed, the footer stands past it: the tail may move. */
  ghost predicate Prepared(d: Disk, dev': seq<byte>, footer: seq<byte>) {
    && Preparing(d, dev', footer)
    && LastSector(dev') == footer
    && forall a {:trigger At(dev', a)} :: d.tail <= a < d.tail + d.l.Total() ==> At(dev', a) == 0
  }

  lemma BlockIsPrepared(d: Disk, dev': seq<byte>, footer: seq<byte>)
    requires Preparing(d, dev', footer) && EndsIn(dev', footer)
    requires forall a {:trigger At(dev', a)} :: d.tail <= a < d.tail + d.l.Total() ==> At(dev', a) == 0
    ensures Prepared(d, dev', footer)
  {
  }

  /** The tail may move past the block, and a block placed there may be named. */
  lemma BoundedFurther(d: Disk, dev': seq<byte>)
    requires Bounded(d) && |dev'| == d.tail + d.l.Total() + FOOTER_SIZE
    ensures Bounded(d.(dev := dev')) && Bounded(d.(dev := dev', tail := d.tail + d.l.Total()))
    ensures d.l.TableEnd() <= |dev'|
    ensures forall k: nat, e: nat {:trigger d.bat[k := e]} :: k < |d.bat| && Home(e) == d.tail ==>
              Bounded(d.(dev := dev', tail := d.tail + d.l.Total(), bat := d.bat[k := e]))
  {
    WholeSectors(d.tail / SECTOR, d.l.bitmapSize, d.l.blockSize);
  }

  /** The entry's slot after its write, and the end of the device, which it does not reach. */
  lemma EntrySlot(d: Disk, dev1: seq<byte>, dev2: seq<byte>, k: nat, e: nat, footer: seq<byte>)
    requires Bounded(d) && |dev1| == d.tail + d.l.Total() + FOOTER_SIZE && EndsIn(dev1, footer)
    requires k < d.l.entries && e < UNALLOCATED && d.l.TableEnd() <= |dev1|
    requires dev2 in {dev1, Splice(dev1, d.l.tableOffset + 4 * k, U32Bytes(e))}
    ensures |dev2| == |dev1| && EndsIn(dev2, footer)
    ensures dev2 == Splice(dev1, d.l.tableOffset + 4 * k, U32Bytes(e)) ==> Table(d.l, dev2)[k] == e
  {
    EntryElsewhere(d, dev1, dev2, footer);
    TableSlotsApart(d.l, dev1, Splice(dev1, d.l.tableOffset + 4 * k, U32Bytes(e)), k, e);
  }

  /** The device below the tail as it was, and zeros where the new block goes. */
  ghost predicate Cleared(d: Disk, dev': seq<byte>) {
    && SameOn(d.dev, dev', 0, d.tail)
    && forall a {:trigger At(dev', a)} :: d.tail <= a < d.tail + d.l.Total() ==> At(dev', a) == 0
  }

  lemma BlockCleared(d: Disk, dev1: seq<byte>, dev2: seq<byte>)
    requires SameOn(d.dev, dev1, 0, d.tail) && SameOutside(dev1, dev2, d.tail, |dev1|)
    requires forall a {:trigger At(dev2, a)} :: d.tail <= a < d.tail + d.l.Total() ==> At(dev2, a) == 0
    ensures Cleared(d, dev2)
  {
  }

  /** The same wherever entry `k`, which names the block, does not stand; the block may lie over
      the metadata, where the tail does. */
  ghost predicate Placed(d: Disk, dev': seq<byte>, k: nat) {
    var slot := d.l.tableOffset + 4 * k;
    forall a {:trigger At(dev', a)} :: 0 <= a < d.tail + d.l.Total() && !(slot <= a < slot + 4) ==>
      At(dev', a) == if a < d.tail then At(d.dev, a) else 0
  }

  lemma EntryPlaced(d: Disk, dev1: seq<byte>, dev2: seq<byte>, k: nat, e: nat)
    requires Cleared(d, dev1) && e < U32_LIMIT && d.l.tableOffset + 4 * k + 4 <= |dev1|
    requires dev2 == Splice(dev1, d.l.tableOffset + 4 * k, U32Bytes(e))
    ensures Placed(d, dev2, k)
  {
  }

  lemma PreparedEnds(d: Disk, dev': seq<byte>, footer: seq<byte>)
    requires Prepared(d, dev', footer)
    ensures |dev'| == d.tail + d.l.Total() + FOOTER_SIZE && EndsIn(dev', footer)
  {
  }

  lemma CommitKeeps(d: Disk, dev': seq<byte>, footer: seq<byte>)
    requires Inv(d) && Prepared(d, dev', footer)
    ensures var d1 := d.(dev := dev', tail := d.tail + d.l.Total());
            Keeps(d, d1, footer) && Inv(d1) && Contents(d1) == Contents(d)
  {
    var d1 := d.(dev := dev');
    PreparingKeeps(d, dev', footer);
    CommitTail(d1);
  }

  /** The table entry on the device, with the cache still at "unallocated". */
  lemma EntryKeeps(d: Disk, dev1: seq<byte>, footer: seq<byte>, k: nat, e: nat, dev2: seq<byte>)
    requires Inv(d) && Prepared(d, dev1, footer) && k < d.l.entries && d.bat[k] == UNALLOCATED
    requires e < UNALLOCATED && Home(e) == d.tail
    requires d.l.tableOffset + 4 * k + 4 <= |dev1|
    requires dev2 == Splice(dev1, d.l.tableOffset + 4 * k, U32Bytes(e))
    ensures var d2 := d.(dev := dev2, tail := d.tail + d.l.Total());
            Keeps(d, d2, footer) && Inv(d2) && Contents(d2) == Contents(d)
    ensures Table(d.l, dev2) == Table(d.l, d.dev)[k := e]
    ensures Blank(d.l, dev2, Home(e))
  {
    hide Recoverable, Anchored, Blank, TableFits, Agrees, Flat, TornSlot;
    var d1 := d.(dev := dev1, tail := d.tail + d.l.Total());
    CommitKeeps(d, dev1, footer);
    TableFrame(d.l, d.dev, dev1);
    ZeroedIsBlank(d.l, dev1, Home(e));
    EntryWritten(d1, k, e, dev2);
    BlankFrame(d.l, dev1, dev2, Home(e));
    EntryAdvances(d, k, e, d1.(dev := dev2));
    if Anchored(d.l, d.dev, footer) {
      TableWriteAnchored(d.l, dev1, dev2, footer);
    }
    if Recoverable(d1, footer) {
      TableWriteRecoverable(d1, dev2, footer);
    }
  }

  /** Whatever became of the entry's write: the block is committed, and no byte moved. */
  lemma EntryKept(d: Disk, dev1: seq<byte>, footer: seq<byte>, k: nat, e: nat, dev2: seq<byte>)
    requires Inv(d) && Prepared(d, dev1, footer) && k < d.l.entries && d.bat[k] == UNALLOCATED
    requires e < UNALLOCATED && Home(e) == d.tail && d.l.TableEnd() <= |dev1|
    requires dev2 == dev1 || dev2 == Splice(dev1, d.l.tableOffset + 4 * k, U32Bytes(e))
    ensures var d2 := d.(dev := dev2, tail := d.tail + d.l.Total());
            Keeps(d, d2, footer) && Inv(d2) && Contents(d2) == Contents(d)
    ensures SameOn(d.dev, dev2, d.l.dataStart, d.tail)
    ensures dev2 == Splice(dev1, d.l.tableOffset + 4 * k, U32Bytes(e)) ==> Blank(d.l, dev2, Home(e))
  {
    hide Recoverable, Anchored, Blank, TableFits, Agrees, Flat, TornSlot, Keeps;
    EntryKeeps(d, dev1, footer, k, e, Splice(dev1, d.l.tableOffset + 4 * k, U32Bytes(e)));
    CommitKeeps(d, dev1, footer);
  }

  lemma EntryAdvances(d: Disk, k: nat, e: nat, d2: Disk)
    requires d2.l == d.l && d2.bat == d.bat && |d.bat| == d.l.entries && d.tail <= d2.tail
    requires k < d.l.entries && e != UNALLOCATED && d.tail <= Home(e)
    requires Table(d.l, d2.dev) == Table(d.l, d.dev)[k := e]
    ensures Advances(d, d2)
  {
  }

  lemma TableWriteAnchored(l: Layout, dev: seq<byte>, dev': seq<byte>, footer: seq<byte>)
    requires l.Valid() && Anchored(l, dev, footer)
    requires SameOutside(dev, dev', l.tableOffset, l.TableEnd())
    ensures Anchored(l, dev', footer)
  {
    AnchoredFrame(l, dev, dev', footer);
  }

  lemma TableWriteRecoverable(d: Disk, dev': seq<byte>, footer: seq<byte>)
    requires d.l.Valid() && d.l.dataStart <= d.tail && Recoverable(d, footer)
    requires SameOutside(d.dev, dev', d.l.tableOffset, d.l.TableEnd())
    ensures Recoverable(d.(dev := dev'), footer)
  {
    hide Anchored, Footers.Parse, Footers.Torn;
    AnchoredFrame(d.l, d.dev, dev', footer);
    SameLastSector(d.dev, dev');
  }

  /** The cache follows the table. */
  lemma CacheKeeps(d: Disk, d2: Disk, footer: seq<byte>, k: nat)
    requires Inv(d) && Keeps(d, d2, footer) && k < d.l.entries
    requires d.bat[k] == UNALLOCATED && d2.bat == d.bat
    requires Table(d2.l, d2.dev)[k] != UNALLOCATED && d.tail <= Home(Table(d2.l, d2.dev)[k])
    ensures var d3 := d2.(bat := d2.bat[k := Table(d2.l, d2.dev)[k]]);
            Keeps(d, d3, footer) && Inv(d3) && Contents(d3) == Contents(d2)
  {
    hide Recoverable;
    CacheEntry(d2, k);
    CacheAdvances(d, d2, k);
    RecoverableIgnoresCache(d2, d2.bat[k := Table(d2.l, d2.dev)[k]], footer);
  }

  /** The last step of an allocation: the cache admits the block, the footer stands past it. */
  lemma CachePublished(d: Disk, d2: Disk, footer: seq<byte>, k: nat, e: nat)
    requires Inv(d) && Keeps(d, d2, footer) && k < d.l.entries && d.bat[k] == UNALLOCATED && d2.bat == d.bat
    requires Table(d2.l, d2.dev)[k] == e != UNALLOCATED && d.tail == Home(e)
    requires |d2.dev| == d2.tail + FOOTER_SIZE && EndsIn(d2.dev, footer)
    ensures var d3 := d2.(bat := d2.bat[k := e]);
            && Keeps(d, d3, footer) && Inv(d3) && d2.l.blockSize > 0 && Contents(d3) == Contents(d2)
            && (Anchored(d.l, d.dev, footer) ==> Recoverable(d3, footer))
  {
    hide Recoverable, Anchored, EndsIn, Flat;
    CacheKeeps(d, d2, footer, k);
    KeepsAnchored(d, d2.(bat := d2.bat[k := e]), footer);
  }

  /** A chunk written into block `k` of `d1`, which `d0` had or has been given. */
  lemma ChunkWritten(d0: Disk, d1: Disk, dev': seq<byte>, cursor: nat, k: nat, inBlock: nat, data: seq<byte>,
    footer: seq<byte>, landed: bool)
    requires Inv(d0) && Keeps(d0, d1, footer) && d1.l.blockSize > 0 && Contents(d1) == Contents(d0)
    requires SameOn(d0.dev, d1.dev, d0.l.dataStart, d0.tail)
    requires k < d0.l.entries && k < |d1.bat| && |d0.bat| == d0.l.entries && d1.bat[k] != UNALLOCATED
    requires Home(d1.bat[k]) == if d0.bat[k] == UNALLOCATED then d0.tail else Home(d0.bat[k])
    requires cursor + |data| <= d1.l.virtualSize && IsAt(d1.l, cursor, k, inBlock) && inBlock + |data| <= d1.l.blockSize
    requires SameOutside(d1.dev, dev', Home(d1.bat[k]), Home(d1.bat[k]) + d1.l.Total())
    requires BlockMixed(d1.l, d1.dev, dev', d1.bat[k], inBlock, data)
    requires landed ==> BlockLanded(d1.l, d1.dev, dev', d1.bat[k], inBlock, data)
    ensures var d2 := d1.(dev := dev');
            && Inv(d2) && Keeps(d0, d2, footer) && OtherBlocks(d0, dev', k)
            && Mixed(Contents(d0), Contents(d2), cursor, data)
            && (landed ==> Contents(d2) == Splice(Contents(d0), cursor, data))
            && (Recoverable(d1, footer) ==> Recoverable(d2, footer))
  {
    hide Flat, BlockMixed, BlockLanded, Recoverable, Anchored, Mixed, IsAt, OtherBlocks, TableFits, Agrees;
    KeepsCached(d0, d1, footer);
    ChunkMixed(d1, dev', cursor, k, inBlock, data, footer);
    if landed {
      ChunkLanded(d1, dev', cursor, k, inBlock, data, footer);
    }
    KeepsTransitive(d0, d1, d1.(dev := dev'), footer);
    KeepsRecoverable(d1, d1.(dev := dev'), footer);
    OneBlockWritten(d0, d1.dev, dev', k, Home(d1.bat[k]));
  }

  lemma RecoverableIgnoresCache(d: Disk, bat': seq<nat>, footer: seq<byte>)
    ensures d.l.Valid() ==> (Recoverable(d, footer) <==> Recoverable(d.(bat := bat'), footer))
  {
  }

  lemma CacheAdvances(d: Disk, d2: Disk, k: nat)
    requires Advances(d, d2) && k < d.l.entries && d.bat[k] == UNALLOCATED && d2.bat == d.bat
    requires Table(d2.l, d2.dev)[k] != UNALLOCATED && d.tail <= Home(Table(d2.l, d2.dev)[k])
    ensures Advances(d, d2.(bat := d2.bat[k := Table(d2.l, d2.dev)[k]]))
  {
  }

  // ---- One chunk of a write ----

  /** Part of a chunk landed in block `k`: everything is kept but that part of the chunk. */
  lemma ChunkMixed(d: Disk, dev': seq<byte>, start: nat, k: nat, inBlock: nat, data: seq<byte>, footer: seq<byte>)
    requires Inv(d) && k < d.l.entries && d.bat[k] != UNALLOCATED
    requires start + |data| <= d.l.virtualSize && IsAt(d.l, start, k, inBlock) && inBlock + |data| <= d.l.blockSize
    requires SameOutside(d.dev, dev', Home(d.bat[k]), Home(d.bat[k]) + d.l.Total())
    requires BlockMixed(d.l, d.dev, dev', d.bat[k], inBlock, data)
    ensures Keeps(d, d.(dev := dev'), footer) && Inv(d.(dev := dev'))
    ensures Mixed(Contents(d), Contents(d.(dev := dev')), start, data)
  {
    BlockWriteKeeps(d, dev', k, footer);
    FlatMixed(d.l, d.dev, dev', d.bat, start, k, inBlock, data);
  }

  /** The whole chunk landed: the disk changed by exactly one splice. */
  lemma ChunkLanded(d: Disk, dev': seq<byte>, start: nat, k: nat, inBlock: nat, data: seq<byte>, footer: seq<byte>)
    requires Inv(d) && k < d.l.entries && d.bat[k] != UNALLOCATED
    requires start + |data| <= d.l.virtualSize && IsAt(d.l, start, k, inBlock) && inBlock + |data| <= d.l.blockSize
    requires SameOutside(d.dev, dev', Home(d.bat[k]), Home(d.bat[k]) + d.l.Total())
    requires BlockLanded(d.l, d.dev, dev', d.bat[k], inBlock, data)
    ensures Contents(d.(dev := dev')) == Splice(Contents(d), start, data)
  {
    BlockWriteKeeps(d, dev', k, footer);
    FlatLanded(d.l, d.dev, dev', d.bat, start, k, inBlock, data);
  }

  /** A part of a later chunk over the whole of the earlier ones is a part of the write. */
  lemma MixedAfterSplice(c: seq<byte>, cur: seq<byte>, off: nat, data: seq<byte>, done: nat, n: nat)
    requires off + |data| <= |c| && done + n <= |data|
    requires Mixed(Splice(c, off, data[..done]), cur, off + done, data[done..done + n])
    ensures Mixed(c, cur, off, data)
  {
    var was := Splice(c, off, data[..done]);
    forall v | 0 <= v < |c| ensures cur[v] == c[v] || (off <= v < off + |data| && cur[v] == data[v - off]) {
      assert At(was, v) == was[v] && At(c, v) == c[v];
      if off <= v < off + done {
        assert was[v] == data[..done][v - off];
      }
      if off + done <= v < off + done + n {
        assert data[done..done + n][v - (off + done)] == data[v - off];
      }
    }
  }

  lemma SpliceExtends(c: seq<byte>, off: nat, data: seq<byte>, done: nat, n: nat)
    requires off + |data| <= |c| && done + n <= |data|
    ensures Splice(Splice(c, off, data[..done]), off + done, data[done..done + n]) == Splice(c, off, data[..done + n])
  {
    var a := Splice(c, off, data[..done]);
    var b := Splice(a, off + done, data[done..done + n]);
    var e := Splice(c, off, data[..done + n]);
    forall v | 0 <= v < |c| ensures b[v] == e[v] {
      assert At(b, v) == b[v] && At(e, v) == e[v] && At(a, v) == a[v];
    }
  }

  /** Any prefix of a write leaves every byte of its range old or new. */
  lemma PrefixMixed(c: seq<byte>, off: nat, data: seq<byte>)
    requires off + |data| <= |c|
    ensures forall k {:trigger data[..k]} :: 0 <= k <= |data| ==> Mixed(c, Splice(c, off, data[..k]), off, data)
  {
    forall k | 0 <= k <= |data| ensures Mixed(c, Splice(c, off, data[..k]), off, data) {
      SpliceIsMixed(c, off, data[..k]);
      var b := Splice(c, off, data[..k]);
      forall v | 0 <= v < |c| ensures b[v] == c[v] || (off <= v < off + |data| && b[v] == data[v - off]) {
      }
    }
  }

  lemma SpliceIsMixed(c: seq<byte>, off: nat, data: seq<byte>)
    requires off + |data| <= |c|
    ensures Mixed(c, Splice(c, off, data), off, data)
  {
    var b := Splice(c, off, data);
    forall v | 0 <= v < |c| ensures b[v] == c[v] || (off <= v < off + |data| && b[v] == data[v - off]) {
      assert At(b, v) == b[v] && At(c, v) == c[v];
    }
  }
}
