/** Opening an image: read the footer, the header and the table,
    walk and sort the table, check the locators, open the parent. */
module Opening {
  import opened Bytes
  import opened Results
  import opened Format
  import opened Blocks
  import opened Disks
  import opened Acceptance
  import opened Images
  import opened Devices
  import opened Readers
  import opened Names
  import Footers
  import Headers = DynamicHeaders

  const MAX_PARENT_DEPTH: nat := 16

  /** A file name, as the units of the header's parent name field. */
  type Name = seq<nat>

  /** Read the trailing footer, and the mirror if it does not parse. */
  method ReadFooter(dev: Device) returns (r: Result<Choice>)
    modifies dev.env
    ensures r.Ok? ==> ChooseFooter(dev.bytes) == r
    ensures dev.env.Since(old(dev.env.faults), old(dev.env.Calm()))
    ensures dev.env.faults == old(dev.env.faults) ==> r == ChooseFooter(dev.bytes)
  {
    var size := |dev.bytes|;
    if size < FOOTER_SIZE {
      return Err(Corrupt);
    }
    var ok, tail := dev.ReadAt(size - FOOTER_SIZE, FOOTER_SIZE);
    if !ok {
      return Err(Io);
    }
    assert tail == LastSector(dev.bytes);
    var parsed := Footers.Parse(tail);
    if parsed.Ok? {
      return Ok(Choice(parsed.value, tail, false));
    }
    if size < 2 * FOOTER_SIZE {
      return Err(parsed.error);
    }
    var found, mirror := dev.ReadAt(0, FOOTER_SIZE);
    if !found {
      return Err(parsed.error);
    }
    assert mirror == dev.bytes[..FOOTER_SIZE];
    var second := Footers.Parse(mirror);
    if second.Ok? && second.value.diskType.Sparse() {
      return Ok(Choice(second.value, mirror, true));
    }
    return Err(parsed.error);
  }

  /** The table as big-endian entries, pushed one after the other. */
  method DecodeTable(l: Layout, ghost dev: seq<byte>, bytes: seq<byte>) returns (t: seq<nat>)
    requires l.TableEnd() <= |dev| && bytes == dev[l.tableOffset..l.TableEnd()]
    ensures t == Table(l, dev)
  {
    t := [];
    for i := 0 to l.entries
      invariant t == Table(l, dev)[..i]
    {
      EntryInSlice(dev, bytes, l.tableOffset, 4 * i);
      t := t + [ReadU32(bytes, 4 * i)];
    }
  }

  lemma EntryInSlice(dev: seq<byte>, bytes: seq<byte>, at: nat, off: nat)
    requires at + |bytes| <= |dev| && bytes == dev[at..at + |bytes|] && off + 4 <= |bytes|
    ensures ReadU32(bytes, off) == ReadU32(dev, at + off)
  {
    assert bytes[off] == dev[at + off] && bytes[off + 1] == dev[at + off + 1];
    assert bytes[off + 2] == dev[at + off + 2] && bytes[off + 3] == dev[at + off + 3];
  }

  /** The header, after the checks that come before the table. */
  method ReadHeader(dev: Device, f: Footers.Footer) returns (r: Result<Headers.DynamicHeader>)
    requires |dev.bytes| < U64_LIMIT
    modifies dev.env
    ensures r.Ok? ==> SparseHeader(dev.bytes, f) == r
    ensures dev.env.Since(old(dev.env.faults), old(dev.env.Calm()))
    ensures dev.env.faults == old(dev.env.faults) ==> r == SparseHeader(dev.bytes, f)
  {
    hide Headers.Parse, Environment.Calm;
    if f.dataOffset == U64_MAX {
      return Err(Corrupt);
    }
    if |dev.bytes| % SECTOR != 0 {
      return Err(Corrupt);
    }
    var ok, bytes := dev.ReadAt(f.dataOffset, HEADER_SIZE);
    if !ok {
      return Err(Io);
    }
    r := Headers.ParseHeader(bytes);
    if r.Err? {
      return;
    }
    var h := r.value;
    if h.blockSize == 0 {
      return Err(Corrupt);
    }
    if h.maxTableEntries < DivCeil(f.currentSize, h.blockSize) {
      return Err(Corrupt);
    }
    var tableEnd := h.tableOffset + 4 * h.maxTableEntries;
    if tableEnd >= U64_LIMIT {
      return Err(Corrupt);
    }
    if tableEnd > |dev.bytes| {
      return Err(Corrupt);
    }
  }

  /** Believe the table, the locators and the tail, or refuse the image. */
  method ReadSparseImage(dev: Device, c: Choice) returns (r: Result<Images.Sparse>)
    requires |dev.bytes| >= FOOTER_SIZE && |dev.bytes| < U64_LIMIT
    modifies dev.env
    ensures r.Ok? ==> OpenSparse(dev.bytes, c) == r
    ensures dev.env.Since(old(dev.env.faults), old(dev.env.Calm()))
    ensures dev.env.faults == old(dev.env.faults) ==> r == OpenSparse(dev.bytes, c)
  {
    var parsed := ReadHeader(dev, c.footer);
    if parsed.Err? {
      return Err(parsed.error);
    }
    var h := parsed.value;
    var l := LayoutOf(c.footer, h);
    var ok, bytes := dev.ReadAt(l.tableOffset, 4 * l.entries);
    if !ok {
      return Err(Io);
    }
    var t := DecodeTable(l, dev.bytes, bytes);
    r := Believe(dev.bytes, c, h, l, t);
  }

  /** The walk, the sort and the neighbour test, the locators, the tail. */
  method Believe(dev: seq<byte>, c: Choice, h: Headers.DynamicHeader, l: Layout, t: seq<nat>)
    returns (r: Result<Images.Sparse>)
    requires FOOTER_SIZE <= |dev| < U64_LIMIT
    requires SparseHeader(dev, c.footer) == Ok(h) && l == LayoutOf(c.footer, h) && t == Table(l, dev)
    ensures r == OpenSparse(dev, c)
  {
    hide SparseHeader, LayoutOf, Table, TableFits, MaxEnd, InRange, AllApart, LocatorClear;
    AcceptedLayoutIsValid(dev, c.footer);
    LayoutTotalPositive(l);
    var dataEnd := DataEnd(dev, c.fromMirror);
    var inRange, named := CollectAllocated(l, t, l.dataStart, dataEnd);
    if !inRange {
      SortedTestIsExact(l, t, Named(t), l.dataStart, dataEnd);
      return Err(Corrupt);
    }
    var sorted := SortUnstable(named);
    SortedTestIsExact(l, t, sorted, l.dataStart, dataEnd);
    var overlap := NeighboursOverlap(l, sorted);
    if overlap {
      return Err(Corrupt);
    }
    LastReachesFurthest(l, t, sorted);
    var tail := |dev| - FOOTER_SIZE;
    if c.fromMirror && sorted != [] {
      tail := Max(tail, Home(sorted[|sorted| - 1]) + l.Total());
    }
    if c.footer.diskType.Differencing? {
      var clear := CheckLocators(l, c.footer.dataOffset, t, sorted, dataEnd, h.parentLocators);
      if !clear {
        return Err(Corrupt);
      }
    }
    return Ok(Images.Sparse(h, l, t, dataEnd, tail));
  }

  lemma LayoutTotalPositive(l: Layout)
    requires l.Valid()
    ensures l.Total() > 0 && l.entries < U32_LIMIT
  {
  }

  // ---- The whole of open ----

  /** The images of a directory, by name. */
  type Directory = map<Name, Device>

  ghost function Files(dir: Option<Directory>): Option<map<Name, seq<byte>>>
    reads if dir.Some? then dir.value.Values else {}
  {
    if dir.None? then None else Some(map n | n in dir.value :: dir.value[n].bytes)
  }

  /** An image opens if its footer, header, table and locators are believed and, for a
      differencing image, if the sibling it names opens, one level further down, and is the
      parent it names. */
  ghost predicate Opens(bytes: seq<byte>, depth: nat, files: Option<map<Name, seq<byte>>>)
    decreases depth
  {
    && depth > 0
    && ChooseFooter(bytes).Ok?
    && var c := ChooseFooter(bytes).value;
       c.footer.diskType.Sparse() ==>
         && OpenSparse(bytes, c).Ok?
         && (c.footer.diskType.Differencing? ==>
               ParentOpens(OpenSparse(bytes, c).value.header, depth, files))
  }

  ghost predicate ParentOpens(h: Headers.DynamicHeader, depth: nat, files: Option<map<Name, seq<byte>>>)
    requires depth > 0
    decreases depth, 0
  {
    && files.Some? && IsFileName(h.parentName) && h.parentName in files.value
    && Opens(files.value[h.parentName], depth - 1, files)
    && ChooseFooter(files.value[h.parentName]).value.footer.uniqueId == h.parentUniqueId
  }

  /** Why an image does not open: the first check that fails, in the order in which they come. */
  ghost function Refusal(bytes: seq<byte>, depth: nat, files: Option<map<Name, seq<byte>>>): Error
    requires !Opens(bytes, depth, files)
    decreases depth
  {
    if depth == 0 then ParentTooDeep
    else if ChooseFooter(bytes).Err? then ChooseFooter(bytes).error
    else if OpenSparse(bytes, ChooseFooter(bytes).value).Err? then OpenSparse(bytes, ChooseFooter(bytes).value).error
    else if files.None? then Unsupported
    else
      var name := OpenSparse(bytes, ChooseFooter(bytes).value).value.header.parentName;
      if !IsFileName(name) || name !in files.value || Opens(files.value[name], depth - 1, files) then ParentNotFound
      else Refusal(files.value[name], depth - 1, files)
  }

  /** What an opened handle holds: exactly what its device says. */
  ghost predicate OpenedAs(rd: VhdReader, dev: Device, writable: bool)
    reads rd, dev
  {
    && rd.dev == dev && rd.writable == writable
    && |dev.bytes| >= FOOTER_SIZE
    && var c := Choice(rd.footer, rd.footerBytes, rd.footerFromMirror);
       && ChooseFooter(dev.bytes) == Ok(c)
       && (rd.footer.diskType.Fixed? ==> rd.header.None? && rd.parent == null)
       && (rd.footer.diskType.Dynamic? ==> rd.parent == null)
       && (rd.footer.diskType.Differencing? ==> rd.parent != null)
       && (rd.footer.diskType.Sparse() ==>
             && rd.header.Some? && OpenSparse(dev.bytes, c).Ok?
             && var s := OpenSparse(dev.bytes, c).value;
                && rd.header.value == s.header && rd.bat == s.bat && rd.nextAlloc == s.tail)
  }

  /** Down the whole chain: each parent is read-only, on the file its child's header names,
      holding what that file says, with the unique id the child expects. */
  ghost predicate Linked(rd: VhdReader, dir: Option<Directory>)
    requires rd.Valid()
    reads rd, rd.readers, rd.devices
    decreases rd.depth
  {
    rd.parent != null ==>
      && rd.parent.Valid() && dir.Some? && rd.header.Some? && rd.header.value.parentName in dir.value
      && rd.parent.dev == dir.value[rd.header.value.parentName] && OpenedAs(rd.parent, rd.parent.dev, false)
      && rd.parent.footer.uniqueId == rd.header.value.parentUniqueId
      && Linked(rd.parent, dir)
  }

  method OpenInner(dev: Device, writable: bool, depth: nat, dir: Option<Directory>) returns (r: Result<VhdReader>)
    requires |dev.bytes| < U64_LIMIT
    requires dir.Some? ==> forall n :: n in dir.value ==>
             dir.value[n].env == dev.env && |dir.value[n].bytes| < U64_LIMIT
    modifies dev.env
    ensures r.Ok? ==> fresh(r.value) && r.value.Valid() && OpenedAs(r.value, dev, writable) && Linked(r.value, dir)
    ensures r.Ok? ==> Opens(dev.bytes, depth, Files(dir))
    ensures dev.env.Since(old(dev.env.faults), old(dev.env.Calm()))
    ensures dev.env.faults == old(dev.env.faults) ==> (r.Ok? <==> Opens(dev.bytes, depth, Files(dir)))
    ensures dev.env.faults == old(dev.env.faults) ==> (r.Err? ==> r.error == Refusal(dev.bytes, depth, Files(dir)))
    decreases depth
  {
    if depth == 0 {
      return Err(ParentTooDeep);
    }
    var chosen := ReadFooter(dev);
    if chosen.Err? {
      return Err(chosen.error);
    }
    var c := chosen.value;
    ChosenFooterFacts(dev.bytes, c);
    if c.footer.diskType.Fixed? {
      var rd := new VhdReader(dev, writable, c.footer, None, [], 0, null, 0, c.bytes, c.fromMirror);
      return Ok(rd);
    }
    r := OpenSparseInner(dev, writable, depth, dir, c);
  }

  lemma ChosenFooterFacts(dev: seq<byte>, c: Choice)
    requires ChooseFooter(dev) == Ok(c)
    ensures |dev| >= FOOTER_SIZE && |c.bytes| == FOOTER_SIZE && c.footer.currentSize < U64_LIMIT
    ensures Footers.Parse(c.bytes) == Ok(c.footer)
  {
  }

  method OpenSparseInner(dev: Device, writable: bool, depth: nat, dir: Option<Directory>, c: Choice)
    returns (r: Result<VhdReader>)
    requires |dev.bytes| < U64_LIMIT && depth > 0
    requires dir.Some? ==> forall n :: n in dir.value ==>
             dir.value[n].env == dev.env && |dir.value[n].bytes| < U64_LIMIT
    requires ChooseFooter(dev.bytes) == Ok(c) && c.footer.diskType.Sparse()
    modifies dev.env
    ensures r.Ok? ==> fresh(r.value) && r.value.Valid() && OpenedAs(r.value, dev, writable) && Linked(r.value, dir)
    ensures r.Ok? ==> Opens(dev.bytes, depth, Files(dir))
    ensures dev.env.Since(old(dev.env.faults), old(dev.env.Calm()))
    ensures dev.env.faults == old(dev.env.faults) ==> (r.Ok? <==> Opens(dev.bytes, depth, Files(dir)))
    ensures dev.env.faults == old(dev.env.faults) ==> (r.Err? ==> r.error == Refusal(dev.bytes, depth, Files(dir)))
    decreases depth, 1
  {
    hide Footers.Parse, SparseHeader, LayoutOf, ParentOpens;
    ChosenFooterFacts(dev.bytes, c);
    var sparse := ReadSparseImage(dev, c);
    if sparse.Err? {
      return Err(sparse.error);
    }
    var s := sparse.value;
    var parent: VhdReader? := null;
    if c.footer.diskType.Differencing? {
      if dir.None? {
        NoDirectoryNoParent(s.header, depth);
        return Err(Unsupported);
      }
      var found := OpenParent(s.header, depth, dev.env, dir);
      if found.Err? {
        return Err(found.error);
      }
      parent := found.value;
    }
    var rd := MakeHandle(dev, writable, c, s, parent, dir);
    return Ok(rd);
  }

  lemma NoDirectoryNoParent(h: Headers.DynamicHeader, depth: nat)
    requires depth > 0
    ensures !ParentOpens(h, depth, None)
  {
  }

  method MakeHandle(dev: Device, writable: bool, c: Choice, s: Images.Sparse, parent: VhdReader?,
    ghost dir: Option<Directory>)
    returns (rd: VhdReader)
    requires |dev.bytes| >= FOOTER_SIZE && ChooseFooter(dev.bytes) == Ok(c) && c.footer.diskType.Sparse()
    requires OpenSparse(dev.bytes, c) == Ok(s)
    requires parent != null <==> c.footer.diskType.Differencing?
    requires parent != null ==>
               && parent.Valid() && parent.dev.env == dev.env && Linked(parent, dir)
               && dir.Some? && s.header.parentName in dir.value
               && OpenedAs(parent, dir.value[s.header.parentName], false)
               && parent.footer.uniqueId == s.header.parentUniqueId
    ensures fresh(rd) && rd.Valid() && OpenedAs(rd, dev, writable) && Linked(rd, dir)
  {
    hide ChooseFooter, TableFits, LocatorsClear, TailOf, DataEnd;
    ChosenFooterFacts(dev.bytes, c);
    AcceptedLayoutIsValid(dev.bytes, c.footer);
    rd := new VhdReader(dev, writable, c.footer, Some(s.header), s.bat, Headers.BitmapSize(s.header.blockSize),
                        parent, s.tail, c.bytes, c.fromMirror);
  }

  /** The sibling of that name, one level further down, and the one the child names. */
  method OpenParent(h: Headers.DynamicHeader, depth: nat, env: Environment, dir: Option<Directory>)
    returns (r: Result<VhdReader>)
    requires depth > 0 && dir.Some?
    requires forall n :: n in dir.value ==> dir.value[n].env == env && |dir.value[n].bytes| < U64_LIMIT
    modifies env
    ensures r.Ok? ==> fresh(r.value) && r.value.Valid() && r.value.dev.env == env && Linked(r.value, dir)
    ensures r.Ok? ==> h.parentName in dir.value && OpenedAs(r.value, dir.value[h.parentName], false)
                      && r.value.footer.uniqueId == h.parentUniqueId
    ensures r.Ok? ==> ParentOpens(h, depth, Files(dir))
    ensures env.Since(old(env.faults), old(env.Calm()))
    ensures env.faults == old(env.faults) ==> (r.Ok? <==> ParentOpens(h, depth, Files(dir)))
    ensures env.faults == old(env.faults) ==>
              (r.Err? ==>
                 r.error ==
                   if !IsFileName(h.parentName) || h.parentName !in dir.value
                      || Opens(Files(dir).value[h.parentName], depth - 1, Files(dir)) then ParentNotFound
                   else Refusal(Files(dir).value[h.parentName], depth - 1, Files(dir)))
    decreases depth, 0
  {
    if !IsFileName(h.parentName) {
      return Err(ParentNotFound);
    }
    if h.parentName !in dir.value {
      return Err(ParentNotFound);
    }
    var dev := dir.value[h.parentName];
    r := OpenInner(dev, false, depth - 1, dir);
    if r.Ok? && r.value.footer.uniqueId != h.parentUniqueId {
      return Err(ParentNotFound);
    }
  }

  /** An opened chain lacks nothing on its devices, except that open never compares a fixed
      image's size with its device. */
  lemma OpenedIsComplete(rd: VhdReader, dir: Option<Directory>, writable: bool)
    requires rd.Valid() && OpenedAs(rd, rd.dev, writable) && Linked(rd, dir)
    ensures rd.footer.diskType.Fixed? ==> (rd.Complete() <==> rd.virtualSize <= |rd.dev.bytes|)
    ensures rd.footer.diskType.Dynamic? ==> rd.Complete()
    ensures rd.footer.diskType.Differencing? ==> rd.parent != null && (rd.Complete() <==> rd.parent.Complete())
  {
    if rd.footer.diskType.Sparse() {
      var c := Choice(rd.footer, rd.footerBytes, rd.footerFromMirror);
      AcceptedTail(rd.dev.bytes, c);
    }
  }

  /** Every opened handle on a dynamic image may be written to. */
  lemma OpenedIsBounded(rd: VhdReader, dev: Device, writable: bool)
    requires rd.Valid() && OpenedAs(rd, dev, writable) && rd.footer.diskType.Dynamic?
    ensures rd.InBounds()
  {
    hide Footers.Parse, SparseHeader, LocatorsClear, ChooseFooter;
    var c := Choice(rd.footer, rd.footerBytes, rd.footerFromMirror);
    AcceptedLayoutIsValid(dev.bytes, c.footer);
    AcceptedTail(dev.bytes, c);
    TailInsideMetadata(dev.bytes, c);
    assert rd.State() == DiskOf(dev.bytes, OpenSparse(dev.bytes, c).value);
  }

  /** A dynamic image opened with its tail above the metadata is ready to be written. */
  lemma OpenedIsReady(rd: VhdReader, dev: Device, writable: bool)
    requires rd.Valid() && OpenedAs(rd, dev, writable) && rd.footer.diskType.Dynamic?
    ensures rd.nextAlloc >= rd.L().dataStart <==> rd.Ready()
  {
    var c := Choice(rd.footer, rd.footerBytes, rd.footerFromMirror);
    AcceptanceEstablishesInv(dev.bytes, c);
    var s := OpenSparse(dev.bytes, c).value;
    assert rd.State() == DiskOf(dev.bytes, s);
  }
}
