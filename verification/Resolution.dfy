/** What opens and what is read from it, in the terms in which the format is published: which
    footer is believed, which fixed, dynamic and differencing images open, how deep a chain may
    be, and which byte of which file a read returns. */
module Resolution {
  import opened Bytes
  import opened Results
  import opened Format
  import opened Blocks
  import opened Disks
  import opened Images
  import opened Devices
  import opened Chains
  import opened Readers
  import opened Names
  import opened Opening
  import opened Published
  import Footers
  import Headers = DynamicHeaders

  // ---- Which footer is believed ----

  /** The bytes are no footer at all. */
  ghost predicate NoFooter(b: seq<byte>) {
    forall f {:trigger IsFooter(b, f)} :: !IsFooter(b, f)
  }

  /** The last sector is a footer, or else the first one is a sparse image's. */
  ghost predicate Believed(bytes: seq<byte>, f: Footers.Footer, fromMirror: bool) {
    if fromMirror then
      && |bytes| >= 1024 && IsFooter(bytes[..512], f) && !f.diskType.Fixed?
      && NoFooter(bytes[|bytes| - 512..])
    else
      |bytes| >= 512 && IsFooter(bytes[|bytes| - 512..], f)
  }

  lemma ChoiceAsPublished(bytes: seq<byte>, f: Footers.Footer, fromMirror: bool)
    ensures Believed(bytes, f, fromMirror) <==>
              && ChooseFooter(bytes).Ok?
              && ChooseFooter(bytes).value.footer == f && ChooseFooter(bytes).value.fromMirror == fromMirror
  {
    hide Footers.Parse, IsFooter;
    if |bytes| >= 512 {
      var s := LastSector(bytes);
      forall g {:trigger IsFooter(s, g)} ensures Footers.Parse(s) == Ok(g) <==> IsFooter(s, g) {
        FooterAsPublished(s, g);
      }
      if Footers.Parse(s).Ok? {
        FooterAsPublished(s, Footers.Parse(s).value);
      }
      FooterAsPublished(s, f);
      FooterAsPublished(bytes[..512], f);
    }
  }

  // ---- Which images open ----

  /** Every file that ends in a fixed image's footer opens, whatever else it holds. */
  lemma FixedOpens(bytes: seq<byte>, f: Footers.Footer, depth: nat, files: Option<map<Name, seq<byte>>>)
    requires |bytes| >= 512 && IsFooter(bytes[|bytes| - 512..], f) && f.diskType.Fixed? && depth > 0
    ensures Opens(bytes, depth, files)
  {
    hide Footers.Parse, IsFooter;
    ChoiceAsPublished(bytes, f, false);
  }

  /** A dynamic image opens if and only if its file is as published, for some header. */
  lemma DynamicOpens(bytes: seq<byte>, f: Footers.Footer, fromMirror: bool, depth: nat,
    files: Option<map<Name, seq<byte>>>)
    requires |bytes| < U64_LIMIT && Believed(bytes, f, fromMirror) && f.diskType.Dynamic? && depth > 0
    ensures Opens(bytes, depth, files) <==>
            exists h :: Believable(bytes, f, h, DataAreaEnd(bytes, fromMirror))
  {
    hide Footers.Parse, IsFooter, OpenSparse, Believable;
    ChoiceAsPublished(bytes, f, fromMirror);
    var c := ChooseFooter(bytes).value;
    if OpenSparse(bytes, c).Ok? {
      AcceptedAsPublished(bytes, c, OpenSparse(bytes, c).value.header);
    }
    if h :| Believable(bytes, f, h, DataAreaEnd(bytes, fromMirror)) {
      AcceptedAsPublished(bytes, c, h);
    }
  }

  /** A differencing image whose own file is as published opens if and only if the sibling that
      its header names is there, opens one level further down and has the id that it names. */
  lemma DifferencingOpens(bytes: seq<byte>, f: Footers.Footer, h: Headers.DynamicHeader, fromMirror: bool,
    depth: nat, files: Option<map<Name, seq<byte>>>)
    requires |bytes| < U64_LIMIT && Believed(bytes, f, fromMirror) && f.diskType.Differencing? && depth > 0
    requires Believable(bytes, f, h, DataAreaEnd(bytes, fromMirror))
    ensures Opens(bytes, depth, files) <==>
              && files.Some? && IsFileName(h.parentName) && h.parentName in files.value
              && Opens(files.value[h.parentName], depth - 1, files)
              && exists g, m :: Believed(files.value[h.parentName], g, m) && g.uniqueId == h.parentUniqueId
  {
    hide Footers.Parse, IsFooter, OpenSparse, Believable, Believed;
    ChoiceAsPublished(bytes, f, fromMirror);
    var c := ChooseFooter(bytes).value;
    AcceptedAsPublished(bytes, c, h);
    if files.Some? && h.parentName in files.value {
      var p := files.value[h.parentName];
      if ChooseFooter(p).Ok? {
        ChoiceAsPublished(p, ChooseFooter(p).value.footer, ChooseFooter(p).value.fromMirror);
      }
      if g, m :| Believed(p, g, m) && g.uniqueId == h.parentUniqueId {
        ChoiceAsPublished(p, g, m);
      }
    }
  }

  /** No differencing image opens but from a file as published. */
  lemma DifferencingIsBelievable(bytes: seq<byte>, f: Footers.Footer, fromMirror: bool, depth: nat,
    files: Option<map<Name, seq<byte>>>)
    requires |bytes| < U64_LIMIT && Believed(bytes, f, fromMirror) && f.diskType.Differencing?
    requires Opens(bytes, depth, files)
    ensures exists h :: Believable(bytes, f, h, DataAreaEnd(bytes, fromMirror))
  {
    hide Footers.Parse, IsFooter, OpenSparse, Believable;
    ChoiceAsPublished(bytes, f, fromMirror);
    var c := ChooseFooter(bytes).value;
    AcceptedAsPublished(bytes, c, OpenSparse(bytes, c).value.header);
  }

  // ---- How deep a chain may be ----

  /** All that makes `p` the parent of an image but that it opens. */
  ghost predicate ParentIs(bytes: seq<byte>, p: seq<byte>, files: Option<map<Name, seq<byte>>>) {
    && ChooseFooter(bytes).Ok? && ChooseFooter(bytes).value.footer.diskType.Differencing?
    && OpenSparse(bytes, ChooseFooter(bytes).value).Ok?
    && var h := OpenSparse(bytes, ChooseFooter(bytes).value).value.header;
       && files.Some? && IsFileName(h.parentName) && h.parentName in files.value && p == files.value[h.parentName]
       && ChooseFooter(p).Ok? && ChooseFooter(p).value.footer.uniqueId == h.parentUniqueId
  }

  /** A child opens one level above its parent. */
  lemma ChildLevel(bytes: seq<byte>, p: seq<byte>, d: nat, files: Option<map<Name, seq<byte>>>)
    requires ParentIs(bytes, p, files)
    ensures Opens(bytes, d, files) <==> d > 0 && Opens(p, d - 1, files)
  {
    hide ChooseFooter, OpenSparse;
  }

  lemma OpenedParent(bytes: seq<byte>, d: nat, files: Option<map<Name, seq<byte>>>) returns (p: seq<byte>)
    requires Opens(bytes, d, files) && ChooseFooter(bytes).value.footer.diskType.Differencing?
    ensures d > 0 && ParentIs(bytes, p, files) && Opens(p, d - 1, files)
  {
    hide Footers.Parse, OpenSparse;
    p := files.value[OpenSparse(bytes, ChooseFooter(bytes).value).value.header.parentName];
    assert Opens(p, d - 1, files);
  }

  /** What opens at some depth opens at any greater one. */
  lemma {:induction false} DeeperOpens(bytes: seq<byte>, d: nat, e: nat, files: Option<map<Name, seq<byte>>>)
    requires Opens(bytes, d, files) && d <= e
    ensures Opens(bytes, e, files)
    decreases d
  {
    hide ChooseFooter, OpenSparse;
    if ChooseFooter(bytes).value.footer.diskType.Differencing? {
      var p := OpenedParent(bytes, d, files);
      DeeperOpens(p, d - 1, e - 1, files);
      ChildLevel(bytes, p, e, files);
    }
  }

  /** The image opens with `n` levels to spend and not with fewer. */
  ghost predicate NeedsLevels(bytes: seq<byte>, n: nat, files: Option<map<Name, seq<byte>>>) {
    forall d: nat {:trigger Opens(bytes, d, files)} :: Opens(bytes, d, files) <==> d >= n
  }

  /** Whatever opens needs some number of levels, one if it has no parent. */
  lemma {:induction false} LevelsNeeded(bytes: seq<byte>, d: nat, files: Option<map<Name, seq<byte>>>)
    returns (n: nat)
    requires Opens(bytes, d, files)
    ensures 1 <= n <= d && NeedsLevels(bytes, n, files)
    ensures !ChooseFooter(bytes).value.footer.diskType.Differencing? ==> n == 1
    decreases d
  {
    hide ChooseFooter, OpenSparse;
    if ChooseFooter(bytes).value.footer.diskType.Differencing? {
      var p := OpenedParent(bytes, d, files);
      var m := LevelsNeeded(p, d - 1, files);
      n := m + 1;
      ChildNeedsOneMore(bytes, p, m, files);
    } else {
      n := 1;
    }
  }

  /** A child needs one level more than its parent. */
  lemma ChildNeedsOneMore(bytes: seq<byte>, p: seq<byte>, n: nat, files: Option<map<Name, seq<byte>>>)
    requires ParentIs(bytes, p, files) && NeedsLevels(p, n, files)
    ensures NeedsLevels(bytes, n + 1, files)
  {
    hide ParentIs, Opens;
    forall e: nat ensures Opens(bytes, e, files) <==> e >= n + 1 {
      ChildLevel(bytes, p, e, files);
    }
  }

  // ---- Why an image is refused ----

  /** With no footer to believe, the last sector says why: it does not begin as one, its checksum
      is wrong, or its disk type is not known. */
  lemma FooterRefused(bytes: seq<byte>, depth: nat, files: Option<map<Name, seq<byte>>>)
    requires |bytes| >= 512 && depth > 0 && NoFooter(bytes[|bytes| - 512..])
    requires forall f :: !Believed(bytes, f, true)
    ensures !Opens(bytes, depth, files)
    ensures var s := bytes[|bytes| - 512..];
            Refusal(bytes, depth, files) ==
              if !Spells(s, 0, "conectix") then NotVhd
              else if !CheckedAt(s, 64) then BadChecksum
              else UnsupportedDiskType(Number(s, 60, 4))
  {
    hide IsFooter, Checksum, ReadU32, ReadU64, Number, CheckedAt, OpenSparse;
    var s := LastSector(bytes);
    if ChooseFooter(bytes).Ok? {
      var c := ChooseFooter(bytes).value;
      ChoiceAsPublished(bytes, c.footer, c.fromMirror);
    }
    CookieSpelled(s);
    CheckedIsSealed(s, 64);
    NumbersAsRead(s, 60);
  }

  /** An image that needs more levels than there are is refused as too deep. */
  lemma {:induction false} TooDeep(bytes: seq<byte>, d: nat, n: nat, files: Option<map<Name, seq<byte>>>)
    requires Opens(bytes, n, files) && d < n && !Opens(bytes, d, files)
    ensures Refusal(bytes, d, files) == ParentTooDeep
    decreases d
  {
    hide Footers.Parse, OpenSparse, IsFileName;
    if d > 0 {
      var p := OpenedParent(bytes, n, files);
      ChildLevel(bytes, p, d, files);
      TooDeep(p, d - 1, n - 1, files);
    }
  }

  // ---- What is read ----

  lemma OpenedBlockSize(bytes: seq<byte>, c: Choice)
    requires |bytes| >= FOOTER_SIZE && OpenSparse(bytes, c).Ok?
    ensures OpenSparse(bytes, c).value.header.blockSize > 0
  {
  }

  lemma OpenedSibling(bytes: seq<byte>, depth: nat, files: Option<map<Name, seq<byte>>>)
    requires Opens(bytes, depth, files) && ChooseFooter(bytes).value.footer.diskType.Differencing?
    ensures depth > 0 && files.Some?
    ensures OpenSparse(bytes, ChooseFooter(bytes).value).Ok?
    ensures var name := OpenSparse(bytes, ChooseFooter(bytes).value).value.header.parentName;
            name in files.value && Opens(files.value[name], depth - 1, files)
  {
    hide Footers.Parse, OpenSparse;
    var p := OpenedParent(bytes, depth, files);
  }

  /** Byte `v` of the disk that an image and the files beside it make up. */
  ghost function ImageByte(bytes: seq<byte>, v: nat, depth: nat, files: Option<map<Name, seq<byte>>>): byte
    requires Opens(bytes, depth, files)
    decreases depth
  {
    hide Footers.Parse, OpenSparse, DiskByte, IsFileName;
    var c := ChooseFooter(bytes).value;
    if v >= c.footer.currentSize then 0
    else if c.footer.diskType.Fixed? then At(bytes, v)
    else
      var h := OpenSparse(bytes, c).value.header;
      OpenedBlockSize(bytes, c);
      if c.footer.diskType.Dynamic? then DiskByte(bytes, h.tableOffset, h.blockSize, v, 0)
      else
        OpenedSibling(bytes, depth, files);
        var under := ImageByte(files.value[h.parentName], v, depth - 1, files);
        DiskByte(bytes, h.tableOffset, h.blockSize, v, under)
  }

  /** What a read of an opened handle resolves a byte to is the byte that the files hold for it. */
  lemma {:induction false} ChainIsImage(rd: VhdReader, dir: Option<Directory>, writable: bool, depth: nat, v: nat)
    requires rd.Valid() && OpenedAs(rd, rd.dev, writable) && Linked(rd, dir)
    requires Opens(rd.dev.bytes, depth, Files(dir))
    ensures ChainByte(rd.Layers(), v) == ImageByte(rd.dev.bytes, v, depth, Files(dir))
    decreases depth
  {
    hide DiskByte, OverlayByte, Footers.Parse, SparseHeader, TableFits, LocatorsClear;
    var chain := rd.Layers();
    assert chain[1..] == rd.Below();
    if rd.parent != null {
      ChainIsImage(rd.parent, dir, false, depth - 1, v);
    }
    if rd.header.Some? && v < rd.virtualSize {
      BytesAsPublished(rd.L(), rd.dev.bytes, v, ChainByte(chain[1..], v));
    }
  }

  /** The byte, in the terms of footer and header as published: a fixed image's own, a dynamic
      image's own or zero, a child's own or its parent's. */
  lemma ImageByteAsPublished(bytes: seq<byte>, f: Footers.Footer, h: Headers.DynamicHeader, fromMirror: bool, v: nat,
    depth: nat, files: Option<map<Name, seq<byte>>>)
    requires |bytes| < U64_LIMIT && Opens(bytes, depth, files) && Believed(bytes, f, fromMirror)
    requires !f.diskType.Fixed? ==> Believable(bytes, f, h, DataAreaEnd(bytes, fromMirror))
    ensures v >= f.currentSize ==> ImageByte(bytes, v, depth, files) == 0
    ensures v < f.currentSize && f.diskType.Fixed? ==> ImageByte(bytes, v, depth, files) == At(bytes, v)
    ensures v < f.currentSize && f.diskType.Dynamic? ==>
              h.blockSize > 0
              && ImageByte(bytes, v, depth, files) == DiskByte(bytes, h.tableOffset, h.blockSize, v, 0)
    ensures v < f.currentSize && f.diskType.Differencing? ==>
              && h.blockSize > 0 && depth > 0 && files.Some? && h.parentName in files.value
              && Opens(files.value[h.parentName], depth - 1, files)
              && ImageByte(bytes, v, depth, files) ==
                   DiskByte(bytes, h.tableOffset, h.blockSize, v,
                            ImageByte(files.value[h.parentName], v, depth - 1, files))
  {
    hide Footers.Parse, OpenSparse, DiskByte, IsFooter, Believable, IsFileName, Believed;
    ChoiceAsPublished(bytes, f, fromMirror);
    if !f.diskType.Fixed? {
      AcceptedAsPublished(bytes, ChooseFooter(bytes).value, h);
      OpenedBlockSize(bytes, ChooseFooter(bytes).value);
    }
    if f.diskType.Differencing? {
      OpenedSibling(bytes, depth, files);
    }
  }

  /** No fixed image at the root of the chain is shorter than it says. */
  ghost predicate Whole(bytes: seq<byte>, depth: nat, files: Option<map<Name, seq<byte>>>)
    requires Opens(bytes, depth, files)
    decreases depth
  {
    hide Footers.Parse, OpenSparse, IsFileName;
    var c := ChooseFooter(bytes).value;
    match c.footer.diskType
    case Fixed => c.footer.currentSize <= |bytes|
    case Dynamic => true
    case Differencing =>
      OpenedSibling(bytes, depth, files);
      Whole(files.value[OpenSparse(bytes, c).value.header.parentName], depth - 1, files)
  }

  lemma {:induction false} WholeIsComplete(rd: VhdReader, dir: Option<Directory>, writable: bool, depth: nat)
    requires rd.Valid() && OpenedAs(rd, rd.dev, writable) && Linked(rd, dir)
    requires Opens(rd.dev.bytes, depth, Files(dir))
    ensures rd.Complete() <==> Whole(rd.dev.bytes, depth, Files(dir))
    decreases depth
  {
    hide OpenSparse;
    OpenedIsComplete(rd, dir, writable);
    if rd.parent != null {
      WholeIsComplete(rd.parent, dir, false, depth - 1);
    }
  }

  /** The data are the bytes of the disk from `offset` on, all of them inside it. */
  ghost predicate Holds(bytes: seq<byte>, files: Option<map<Name, seq<byte>>>, offset: nat, data: seq<byte>)
    requires Opens(bytes, 16, files)
  {
    && (data != [] ==> InDisk(bytes, offset + |data|))
    && forall i {:trigger data[i]} :: 0 <= i < |data| ==> data[i] == ImageByte(bytes, offset + i, 16, files)
  }

  ghost predicate InDisk(bytes: seq<byte>, end: nat) {
    ChooseFooter(bytes).Ok? && end <= ChooseFooter(bytes).value.footer.currentSize
  }

  /** Read `n` bytes through an opened handle. */
  method ReadOpened(rd: VhdReader, ghost dir: Option<Directory>, ghost writable: bool, offset: nat, n: nat)
    returns (r: Result<seq<byte>>)
    requires rd.Valid() && OpenedAs(rd, rd.dev, writable) && Linked(rd, dir)
    requires Opens(rd.dev.bytes, 16, Files(dir))
    modifies rd.dev.env
    ensures r.Ok? ==> |r.value| == n && Holds(rd.dev.bytes, Files(dir), offset, r.value)
    ensures rd.dev.env.Since(old(rd.dev.env.faults), old(rd.dev.env.Calm()))
    ensures rd.dev.env.faults == old(rd.dev.env.faults) ==>
              (Whole(rd.dev.bytes, 16, Files(dir)) && InDisk(rd.dev.bytes, offset + n) ==> r.Ok?)
  {
    hide Opens, Linked, OpenSparse, ImageByte, Whole, ChainByte, Footers.Parse, ChooseFooter, Environment.Calm;
    WholeIsComplete(rd, dir, writable, 16);
    var buf := new byte[n](i => 0);
    var outcome := rd.ReadAt(offset, buf, 0, n);
    if outcome.Fail? {
      return Err(outcome.error);
    }
    forall i | 0 <= i < n ensures buf[i] == ImageByte(rd.dev.bytes, offset + i, 16, Files(dir)) {
      ChainIsImage(rd, dir, writable, 16, offset + i);
    }
    return Ok(buf[..]);
  }

  /** Open a file and read `n` bytes of its disk: what comes back is what the files hold, and
      with nothing failing it comes back for every range inside a disk whose chain is whole. */
  method OpenAndRead(dev: Device, dir: Option<Directory>, offset: nat, n: nat) returns (r: Result<seq<byte>>)
    requires |dev.bytes| < U64_LIMIT
    requires dir.Some? ==> forall m :: m in dir.value ==>
             dir.value[m].env == dev.env && |dir.value[m].bytes| < U64_LIMIT
    modifies dev.env
    ensures r.Ok? ==>
              && Opens(dev.bytes, 16, Files(dir))
              && |r.value| == n && Holds(dev.bytes, Files(dir), offset, r.value)
    ensures dev.env.Since(old(dev.env.faults), old(dev.env.Calm()))
    ensures dev.env.faults == old(dev.env.faults) ==>
              if Opens(dev.bytes, 16, Files(dir))
              then Whole(dev.bytes, 16, Files(dir)) && InDisk(dev.bytes, offset + n) ==> r.Ok?
              else r == Err(Refusal(dev.bytes, 16, Files(dir)))
  {
    hide Opens, Linked, OpenedAs, Holds, Whole, Refusal, Environment.Calm;
    var found := OpenInner(dev, false, MAX_PARENT_DEPTH, dir);
    if found.Err? {
      return Err(found.error);
    }
    assert found.value.dev == dev by {
      OpenedOn(found.value, dev, false);
    }
    r := ReadOpened(found.value, dir, false, offset, n);
  }

  lemma OpenedOn(rd: VhdReader, dev: Device, writable: bool)
    requires OpenedAs(rd, dev, writable)
    ensures rd.dev == dev
  {
  }

  // ---- Fixed images, end to end ----

  /** Data followed by the footer of a fixed image of that size is an image of that data. */
  lemma DataThenFooter(data: seq<byte>, footer: seq<byte>, f: Footers.Footer, files: Option<map<Name, seq<byte>>>)
    requires IsFooter(footer, f) && f.diskType.Fixed? && f.currentSize == |data|
    ensures Opens(data + footer, 16, files) && Whole(data + footer, 16, files) && InDisk(data + footer, |data|)
    ensures forall v {:trigger data[v]} :: 0 <= v < |data| ==> ImageByte(data + footer, v, 16, files) == data[v]
  {
    hide IsFooter, Footers.Parse;
    var bytes := data + footer;
    assert |footer| == 512 by {
      assert IsFooter(footer, f);
      FooterIsSector(footer, f);
    }
    assert bytes[|bytes| - 512..] == footer;
    FixedOpens(bytes, f, 16, files);
    ChoiceAsPublished(bytes, f, false);
    forall v | 0 <= v < |data| ensures ImageByte(bytes, v, 16, files) == data[v] {
      assert At(bytes, v) == data[v];
    }
  }

  lemma FooterIsSector(b: seq<byte>, f: Footers.Footer)
    requires IsFooter(b, f)
    ensures |b| == 512
  {
  }

  /** Put the footer of a fixed image behind the data that a device holds, open it and read it
      all: with nothing failing the data come back. */
  method FixedRoundTrip(dev: Device, data: seq<byte>, timestamp: nat, uuid: seq<byte>) returns (r: Result<seq<byte>>)
    requires |data| + FOOTER_SIZE < U64_LIMIT && timestamp < U32_LIMIT && |uuid| == 16
    requires |dev.bytes| == |data| + FOOTER_SIZE && dev.bytes[..|data|] == data
    modifies dev, dev.env
    ensures r.Ok? ==> r.value == data
    ensures dev.env.Since(old(dev.env.faults), old(dev.env.Calm()))
    ensures dev.env.faults == old(dev.env.faults) ==> r.Ok?
  {
    hide Opens, Whole, ImageByte, InDisk, Footers.Parse, IsFooter, Environment.Calm, Footers.HoldsGeometry;
    var footer := Footers.BuildFooter(|data|, Footers.Fixed, U64_MAX, timestamp, uuid);
    ghost var f := Footers.Parse(footer).value;
    FooterAsPublished(footer, f);
    ghost var landed;
    var ok;
    ok, landed := dev.WriteAt(|data|, footer);
    if !ok {
      return Err(Io);
    }
    assert dev.bytes == data + footer by {
      SplicedEnd(old(dev.bytes), data, footer, dev.bytes);
    }
    DataThenFooter(data, footer, f, None);
    r := OpenAndRead(dev, None, 0, |data|);
    assert r.Ok? ==> r.value == data;
  }

  lemma SplicedEnd(was: seq<byte>, data: seq<byte>, footer: seq<byte>, now: seq<byte>)
    requires |was| == |data| + |footer| && was[..|data|] == data
    requires now == Splice(was, |data|, footer[..|footer|])
    ensures now == data + footer
  {
    assert footer[..|footer|] == footer;
  }
}
