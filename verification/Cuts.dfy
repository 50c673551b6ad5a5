/** Images whose device ends at the tail, with no room for a trailing footer: when they open
    from their mirror, and what writing does to that. */
module Cuts {
  import opened Bytes
  import opened Results
  import opened Format
  import opened Blocks
  import opened Disks
  import opened Acceptance
  import opened Images
  import opened Steps
  import Footers
  import Headers = DynamicHeaders

  /** An image in order whose device ends at the tail, with no room for a trailing footer. */
  ghost predicate Cut(d: Disk, footer: seq<byte>) {
    Inv(d) && Anchored(d.l, d.dev, footer) && |d.dev| == d.tail
  }

  function MirrorChoice(footer: seq<byte>): Choice
    requires Footers.Parse(footer).Ok?
  {
    Choice(Footers.Parse(footer).value, footer, true)
  }

  lemma CutBounds(d: Disk, footer: seq<byte>)
    requires Cut(d, footer)
    ensures d.tail >= d.l.dataStart >= HEADER_SIZE && d.tail % SECTOR == 0 && d.l.Valid() && d.l.TableEnd() <= d.tail
    ensures Footers.Parse(footer).Ok? && Footers.Parse(footer).value.diskType.Dynamic?
    ensures TableFits(d.l, Table(d.l, d.dev), d.l.dataStart, d.tail)
  {
  }

  /** The mirror is believed if and only if the last sector is not itself a footer. */
  lemma MirrorIsChosen(d: Disk, footer: seq<byte>)
    requires Cut(d, footer)
    ensures Footers.Parse(footer).Ok? && |d.dev| >= HEADER_SIZE
    ensures ChooseFooter(d.dev) == Ok(MirrorChoice(footer)) <==> Footers.Parse(LastSector(d.dev)).Err?
    ensures Footers.Parse(LastSector(d.dev)).Ok? ==> ChooseFooter(d.dev).Ok? && !ChooseFooter(d.dev).value.fromMirror
  {
    hide Anchored, Inv, Footers.Parse;
    CutBounds(d, footer);
    MirrorSector(d.l, d.dev, footer);
  }

  lemma MirrorSector(l: Layout, dev: seq<byte>, footer: seq<byte>)
    requires Anchored(l, dev, footer) && |dev| >= FOOTER_SIZE
    ensures dev[..FOOTER_SIZE] == footer
  {
    forall i | 0 <= i < FOOTER_SIZE ensures dev[..FOOTER_SIZE][i] == footer[i] {
      assert At(dev, i) == At(footer, i);
    }
  }

  /** Believed from the mirror, the image opens unless its last sector begins with the
      footer's cookie and a block reaches into it. */
  lemma CutOpens(d: Disk, footer: seq<byte>)
    requires Cut(d, footer)
    ensures Footers.Parse(footer).Ok? && |d.dev| >= HEADER_SIZE
    ensures var t := Table(d.l, d.dev);
            var image := OpenSparse(d.dev, MirrorChoice(footer));
            && (image.Ok? <==>
                  !Footers.StartsWithCookie(LastSector(d.dev)) || MaxEnd(d.l, t) <= d.tail - FOOTER_SIZE)
            && (image.Ok? ==>
                  && image.value.l == d.l && image.value.bat == t
                  && image.value.tail == Max(d.tail - FOOTER_SIZE, MaxEnd(d.l, t)))
  {
    hide Footers.Parse, Headers.Parse, Anchored, SparseHeader, LayoutOf, Table, Inv;
    CutBounds(d, footer);
    var h := CutHeader(d, footer);
    FitsBelowExactly(d.l, Table(d.l, d.dev), d.l.dataStart, d.tail, d.tail - FOOTER_SIZE);
  }

  lemma CutHeader(d: Disk, footer: seq<byte>) returns (h: Headers.DynamicHeader)
    requires Cut(d, footer)
    ensures Footers.Parse(footer).Ok? && SparseHeader(d.dev, Footers.Parse(footer).value) == Ok(h)
    ensures LayoutOf(Footers.Parse(footer).value, h) == d.l
  {
    hide Footers.Parse, Headers.Parse, TableFits, Agrees;
    h := AnchoredHeader(d, footer);
  }

  lemma FitsBelowExactly(l: Layout, t: seq<nat>, lo: nat, hi: nat, hi': nat)
    requires TableFits(l, t, lo, hi) && hi' <= hi
    ensures TableFits(l, t, lo, hi') <==> MaxEnd(l, t) <= hi'
  {
    if MaxEnd(l, t) > hi' {
      var i :| 0 <= i < |t| && t[i] != UNALLOCATED && MaxEnd(l, t) == Home(t[i]) + l.Total();
      assert Home(t[i]) + l.Total() > hi';
    }
  }

  /** When the last block ends the device, the image reopens if and only if what is now its
      last sector does not begin with the cookie: otherwise it is refused, or that sector is
      taken for a footer, which never leads back to this layout. */
  lemma CutReopens(d: Disk, footer: seq<byte>)
    requires Cut(d, footer) && MaxEnd(d.l, Table(d.l, d.dev)) == d.tail
    ensures |d.dev| >= FOOTER_SIZE
    ensures ReopensAs(d.dev, d.l) <==> !Footers.StartsWithCookie(LastSector(d.dev))
  {
    hide Anchored, Inv, SparseHeader, LayoutOf, Table;
    CutBounds(d, footer);
    MirrorIsChosen(d, footer);
    CutOpens(d, footer);
    FitsBelowExactly(d.l, Table(d.l, d.dev), d.l.dataStart, d.tail, d.tail - FOOTER_SIZE);
    if !Footers.StartsWithCookie(LastSector(d.dev)) {
      NoCookieNoFooter(LastSector(d.dev));
    }
  }

  lemma NoCookieNoFooter(b: seq<byte>)
    requires !Footers.StartsWithCookie(b)
    ensures Footers.Parse(b).Err?
  {
  }

  /** What reopening the cut device gives: the same disk, and a tail past every block.  It may
      be written exactly when some block is allocated or a sector was to spare. */
  lemma CutRecovers(d: Disk, footer: seq<byte>) returns (c: Choice, s: Sparse)
    requires Cut(d, footer) && |d.dev| >= FOOTER_SIZE && !Footers.StartsWithCookie(LastSector(d.dev))
    ensures ChooseFooter(d.dev) == Ok(c) && c.fromMirror && c.bytes == footer
    ensures OpenSparse(d.dev, c) == Ok(s)
    ensures s.l == d.l && s.bat == Table(d.l, d.dev) && Contents(DiskOf(d.dev, s)) == Contents(d)
    ensures Inv(DiskOf(d.dev, s)) <==> NamesBlock(s.bat) || d.tail - FOOTER_SIZE >= d.l.dataStart
    ensures s.tail == Max(d.tail - FOOTER_SIZE, MaxEnd(d.l, s.bat))
  {
    hide Footers.Parse, Anchored, Flat, SparseHeader, LayoutOf;
    NoCookieNoFooter(LastSector(d.dev));
    MirrorIsChosen(d, footer);
    c := MirrorChoice(footer);
    CutOpens(d, footer);
    s := OpenSparse(d.dev, c).value;
    TailAboveMetadata(d.dev, c);
    AcceptanceEstablishesInv(d.dev, c);
    LiveAgreesWithDevice(d);
  }

  // ---- What steps do to a cut image ----

  /** A cut image whose last block ends the device: what open makes of an image that lost its
      footer and nothing else. */
  ghost predicate CutFull(d: Disk, footer: seq<byte>) {
    Cut(d, footer) && MaxEnd(d.l, Table(d.l, d.dev)) == d.tail
  }

  /** The image has a footer to come back to, at its end or in its mirror. */
  ghost predicate Rooted(d: Disk, footer: seq<byte>) {
    Recoverable(d, footer) || CutFull(d, footer)
  }

  lemma RecoverableIsNotCut(d: Disk, footer: seq<byte>)
    requires Recoverable(d, footer)
    ensures !CutFull(d, footer)
  {
  }

  /** Where the device did not grow, nothing was allocated. */
  lemma SameLengthSameTable(d0: Disk, d1: Disk, footer: seq<byte>)
    requires Inv(d0) && Keeps(d0, d1, footer) && |d0.dev| == d0.tail && |d1.dev| <= |d0.dev|
    ensures d1.l == d0.l && d1.tail == d0.tail == |d1.dev| && Table(d1.l, d1.dev) == Table(d0.l, d0.dev)
  {
    LengthBounds(d1);
    forall i | 0 <= i < d0.l.entries ensures Table(d1.l, d1.dev)[i] == Table(d0.l, d0.dev)[i] {
    }
  }

  /** Every step on a cut image leaves it cut or, as soon as the device has grown, makes it
      recoverable. */
  lemma KeepsRooted(d0: Disk, d1: Disk, footer: seq<byte>)
    requires Inv(d0) && Keeps(d0, d1, footer) && Rooted(d0, footer)
    ensures Rooted(d1, footer)
    ensures CutFull(d0, footer) ==> if |d1.dev| > |d0.dev| then Recoverable(d1, footer) else CutFull(d1, footer)
    ensures CutFull(d1, footer) ==> CutFull(d0, footer) && |d1.dev| == |d0.dev|
  {
    hide Recoverable, Anchored, Table, MaxEnd, Inv;
    KeepsRecoverable(d0, d1, footer);
    if Recoverable(d0, footer) {
      RecoverableIsNotCut(d0, footer);
      RecoverableIsNotCut(d1, footer);
    } else if |d1.dev| > |d0.dev| {
      KeepsGrown(d0, d1, footer);
      RecoverableIsNotCut(d1, footer);
    } else {
      SameLengthSameTable(d0, d1, footer);
    }
  }

  lemma KeepsGrown(d0: Disk, d1: Disk, footer: seq<byte>)
    requires Keeps(d0, d1, footer) && Anchored(d0.l, d0.dev, footer) && |d1.dev| > |d0.dev|
    ensures Recoverable(d1, footer)
  {
  }

  /** Reopened from its mirror, a cut image is the same cut image. */
  lemma CutFullReopens(d: Disk, footer: seq<byte>) returns (c: Choice, s: Sparse)
    requires CutFull(d, footer) && |d.dev| >= FOOTER_SIZE && !Footers.StartsWithCookie(LastSector(d.dev))
    ensures ChooseFooter(d.dev) == Ok(c) && c.fromMirror && c.bytes == footer
    ensures OpenSparse(d.dev, c) == Ok(s)
    ensures DiskOf(d.dev, s) == Disk(d.l, d.dev, Table(d.l, d.dev), d.tail)
    ensures Inv(DiskOf(d.dev, s)) && CutFull(DiskOf(d.dev, s), footer)
    ensures d.l.blockSize > 0 && Contents(DiskOf(d.dev, s)) == Contents(d)
  {
    hide Footers.Parse, Anchored, Flat, SparseHeader, LayoutOf, MaxEnd, Table, ChooseFooter, OpenSparse;
    c, s := CutRecovers(d, footer);
    CutBounds(d, footer);
    InvWithDeviceTable(d);
  }

  lemma InvWithDeviceTable(d: Disk)
    requires Inv(d)
    ensures Inv(d.(bat := Table(d.l, d.dev)))
  {
  }

  // ---- Right after a growth ----

  /** Right after a growth nothing but the mirror can bring the image back: it has a footer to
      believe if and only if the mirror parses as a sparse image's. */
  lemma GrownNeedsMirror(dev: seq<byte>, dev': seq<byte>)
    requires |dev| >= FOOTER_SIZE && |dev| + FOOTER_SIZE <= |dev'| && dev' == Grow(dev, |dev'|)
    ensures ChooseFooter(dev').Ok? <==>
              Footers.Parse(dev[..FOOTER_SIZE]).Ok? && Footers.Parse(dev[..FOOTER_SIZE]).value.diskType.Sparse()
    ensures ChooseFooter(dev').Ok? ==> ChooseFooter(dev').value == MirrorChoice(dev[..FOOTER_SIZE])
  {
    hide Footers.Parse;
    GrownEndsInZeros(dev, dev');
    assert dev'[..FOOTER_SIZE] == dev[..FOOTER_SIZE];
  }

  /** A crash right after a growth: the image, opened before from whichever footer, reopens as
      itself if and only if the mirror parses as a sparse image's and describes the layout. */
  lemma GrownReopens(d: Disk, dev': seq<byte>)
    requires Inv(d) && d.tail >= FOOTER_SIZE && |dev'| == d.tail + d.l.Total() + FOOTER_SIZE
    requires |d.dev| < |dev'| && dev' == Grow(d.dev, |dev'|)
    ensures var mirror := Footers.Parse(d.dev[..FOOTER_SIZE]);
            ReopensAs(dev', d.l) <==>
              && mirror.Ok? && mirror.value.diskType.Sparse()
              && MirrorDescribes(dev', mirror.value, d.l)
  {
    hide Footers.Parse, SparseHeader, LayoutOf, Table, MaxEnd, TableFits, DataEnd, LocatorsClear;
    LengthBounds(d);
    GrowthIsWhole(d);
    GrownNeedsMirror(d.dev, dev');
    if ChooseFooter(dev').Ok? {
      GrownTableFits(d, dev', ChooseFooter(dev').value);
    }
  }

  /** That footer leads to a header that passes, to this layout, and to locators, if it has
      any, that lie clear. */
  ghost predicate MirrorDescribes(dev: seq<byte>, f: Footers.Footer, l: Layout)
    requires |dev| >= FOOTER_SIZE
  {
    && SparseHeader(dev, f).Ok? && LayoutOf(f, SparseHeader(dev, f).value) == l
    && LocatorsClear(Choice(f, dev[..FOOTER_SIZE], true), SparseHeader(dev, f).value, l, Table(l, dev), |dev|)
  }

  lemma GrowthIsWhole(d: Disk)
    requires Inv(d)
    ensures |d.dev| < d.tail + d.l.Total() + FOOTER_SIZE ==> |d.dev| + FOOTER_SIZE <= d.tail + d.l.Total() + FOOTER_SIZE
  {
  }

  lemma GrownTableFits(d: Disk, dev': seq<byte>, c: Choice)
    requires Inv(d) && |d.dev| < |dev'| && dev' == Grow(d.dev, |dev'|)
    requires |dev'| == d.tail + d.l.Total() + FOOTER_SIZE
    requires c.fromMirror && c.bytes == dev'[..FOOTER_SIZE]
    ensures OpenSparse(dev', c).Ok? && OpenSparse(dev', c).value.l == d.l <==> MirrorDescribes(dev', c.footer, d.l)
  {
    hide SparseHeader, LayoutOf, Table, TableFits, Agrees;
    GrowthIsWhole(d);
    GrownEndsInZeros(d.dev, dev');
    assert LastSector(dev')[..8][0] != Footers.COOKIE[0];
    GrowthKeepsTable(d, dev');
    FitsHigher(d.l, Table(d.l, d.dev), d.l.dataStart, d.tail, |dev'|);
  }

  lemma GrowthKeepsTable(d: Disk, dev': seq<byte>)
    requires Inv(d) && |d.dev| <= |dev'| && dev' == Grow(d.dev, |dev'|)
    ensures Table(d.l, dev') == Table(d.l, d.dev) && TableFits(d.l, Table(d.l, d.dev), d.l.dataStart, d.tail)
  {
    TableFrame(d.l, d.dev, dev');
  }
}
