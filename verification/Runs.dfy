/** Whole runs: any sequence of writes and restarts, on a machine where any operation may
    fail and which may stop at any of them. */
module Runs {
  import opened Bytes
  import opened Results
  import opened Format
  import opened Blocks
  import opened Disks
  import opened Images
  import opened Steps
  import opened Landing
  import opened Cuts
  import opened Devices
  import opened Readers
  import opened Opening
  import Footers

  datatype Event = Write(offset: nat, data: seq<byte>) | Restart

  datatype Step = Wrote(offset: nat, data: seq<byte>, acknowledged: bool) | Reopened

  /** One step of a run, from the live disk before it to the live disk after it. */
  ghost predicate StepHolds(d0: Disk, step: Step, d1: Disk)
    requires Inv(d0) && Inv(d1)
  {
    && Advances(d0, d1)
    && match step
       case Reopened => Contents(d1) == Contents(d0)
       case Wrote(off, data, ok) =>
         if off + |data| > d0.l.virtualSize then (data == [] || !ok) && Contents(d1) == Contents(d0)
         else Mixed(Contents(d0), Contents(d1), off, data) && (ok ==> Contents(d1) == Splice(Contents(d0), off, data))
  }

  /** The recorded run: a disk before and after every step. */
  ghost predicate TraceHolds(trace: seq<Disk>, steps: seq<Step>) {
    && |trace| == |steps| + 1
    && (forall k {:trigger trace[k]} :: 0 <= k < |trace| ==> Inv(trace[k]))
    && (forall k {:trigger steps[k]} :: 0 <= k < |steps| ==> StepHolds(trace[k], steps[k], trace[k + 1]))
  }

  lemma TraceStarts(d: Disk)
    requires Inv(d)
    ensures TraceHolds([d], [])
  {
  }

  lemma TraceExtends(trace: seq<Disk>, steps: seq<Step>, step: Step, d: Disk)
    requires TraceHolds(trace, steps) && Inv(d)
    requires |trace| == |steps| + 1 && Inv(trace[|steps|]) && StepHolds(trace[|steps|], step, d)
    ensures TraceHolds(trace + [d], steps + [step])
  {
    var t, s := trace + [d], steps + [step];
    forall k | 0 <= k < |t| ensures Inv(t[k]) {
      if k < |trace| {
        assert t[k] == trace[k];
      }
    }
    forall k | 0 <= k < |s| ensures StepHolds(t[k], s[k], t[k + 1]) {
      if k < |steps| {
        assert s[k] == steps[k] && t[k] == trace[k] && t[k + 1] == trace[k + 1];
      } else {
        assert t[k] == trace[|steps|];
      }
    }
  }

  /** The step that an event and what the caller was told about it amount to. */
  function StepOf(event: Event, outcome: Outcome): Step {
    match event
    case Write(offset, data) => Wrote(offset, data, outcome.Pass?)
    case Restart => Reopened
  }

  /** The steps recorded are those of the events, with the outcomes the caller saw. */
  ghost predicate StepsAre(steps: seq<Step>, events: seq<Event>, outcomes: seq<Outcome>) {
    && |steps| == |outcomes| <= |events|
    && forall k {:trigger steps[k]} :: 0 <= k < |steps| ==> steps[k] == StepOf(events[k], outcomes[k])
  }

  /** A write outside the disk is refused unless it is empty; one inside it, with no operation
      of its own struck, is done if and only if the table can name the blocks it must add to
      disk `d`, the one before it. */
  ghost predicate Answer(event: Event, outcome: Outcome, d: Disk, struck: bool)
    requires d.l.blockSize > 0
  {
    event.Write? ==>
      if event.offset + |event.data| > d.l.virtualSize then event.data == [] || outcome.Fail?
      else !struck ==> (outcome.Pass? <==> Room(d, event.offset, |event.data|))
  }

  /** Every event was answered so; `faults` counts the faults before and after each. */
  ghost predicate Answers(events: seq<Event>, outcomes: seq<Outcome>, trace: seq<Disk>, faults: seq<nat>) {
    && |outcomes| <= |events| && |faults| == |trace| == |outcomes| + 1
    && (forall k {:trigger trace[k]} :: 0 <= k < |trace| ==> trace[k].l.blockSize > 0)
    && (forall k {:trigger faults[k]} :: 0 <= k < |outcomes| ==> faults[k] <= faults[k + 1])
    && forall k {:trigger outcomes[k]} :: 0 <= k < |outcomes| ==>
         Answer(events[k], outcomes[k], trace[k], faults[k] < faults[k + 1])
  }

  lemma AnswersExtend(events: seq<Event>, outcomes: seq<Outcome>, outcome: Outcome, trace: seq<Disk>, d: Disk,
    faults: seq<nat>, now: nat)
    requires Answers(events, outcomes, trace, faults) && |outcomes| < |events| && d.l.blockSize > 0
    requires |faults| == |outcomes| + 1 && faults[|outcomes|] <= now
    requires |trace| == |outcomes| + 1 && trace[|outcomes|].l.blockSize > 0
    requires Answer(events[|outcomes|], outcome, trace[|outcomes|], faults[|outcomes|] < now)
    ensures Answers(events, outcomes + [outcome], trace + [d], faults + [now])
  {
    var more, count, t := outcomes + [outcome], faults + [now], trace + [d];
    forall k | 0 <= k < |more|
      ensures count[k] <= count[k + 1] && Answer(events[k], more[k], t[k], count[k] < count[k + 1])
    {
      assert t[k] == trace[k] && count[k] == faults[k];
      if k < |outcomes| {
        assert more[k] == outcomes[k] && count[k + 1] == faults[k + 1];
      }
    }
  }

  lemma StepsExtend(steps: seq<Step>, events: seq<Event>, outcomes: seq<Outcome>, outcome: Outcome)
    requires StepsAre(steps, events, outcomes) && |steps| < |events|
    ensures StepsAre(steps + [StepOf(events[|steps|], outcome)], events, outcomes + [outcome])
  {
  }

  /** What has been recorded of a run so far. */
  ghost predicate Recorded(trace: seq<Disk>, steps: seq<Step>, events: seq<Event>, outcomes: seq<Outcome>,
    faults: seq<nat>)
  {
    && TraceHolds(trace, steps) && StepsAre(steps, events, outcomes) && |trace| == |steps| + 1
    && Answers(events, outcomes, trace, faults)
  }

  lemma RecordStarts(d: Disk, events: seq<Event>, now: nat)
    requires Inv(d)
    ensures Recorded([d], [], events, [], [now])
  {
    TraceStarts(d);
  }

  lemma RecordExtends(trace: seq<Disk>, steps: seq<Step>, events: seq<Event>, outcomes: seq<Outcome>,
    faults: seq<nat>, d0: Disk, outcome: Outcome, d: Disk, now: nat)
    requires Recorded(trace, steps, events, outcomes, faults)
    requires |trace| == |steps| + 1 && trace[|steps|] == d0 && |outcomes| == |steps| < |events|
    requires Inv(d0) && Inv(d) && StepHolds(d0, StepOf(events[|steps|], outcome), d)
    requires |faults| == |steps| + 1 && faults[|steps|] <= now && d0.l.blockSize > 0
    requires Answer(events[|steps|], outcome, d0, faults[|steps|] < now)
    ensures Recorded(trace + [d], steps + [StepOf(events[|steps|], outcome)], events, outcomes + [outcome],
                     faults + [now])
  {
    hide Inv, StepHolds, TraceHolds, Answers;
    LengthBounds(d);
    TraceExtends(trace, steps, StepOf(events[|steps|], outcome), d);
    StepsExtend(steps, events, outcomes, outcome);
    AnswersExtend(events, outcomes, outcome, trace, d, faults, now);
  }

  /** Why a run could end before its last event: a restart's open was struck, or there was no
      footer for it to find. */
  ghost predicate NoWayBack(d: Disk, footer: seq<byte>) {
    || !Rooted(d, footer)
    || (CutFull(d, footer) && |d.dev| >= FOOTER_SIZE && Footers.StartsWithCookie(LastSector(d.dev)))
  }

  /** Perform the events on a handle.  Writes that fail are steps like any other; a restart
      brings the machine up and opens the device anew. */
  method Perform(first: VhdReader, events: seq<Event>)
    returns (last: VhdReader, outcomes: seq<Outcome>, ghost trace: seq<Disk>, ghost steps: seq<Step>,
             ghost faults: seq<nat>)
    requires first.Ready() && first.writable && |first.dev.bytes| < U64_LIMIT
    modifies first`bat, first`nextAlloc, first.dev, first.dev.env
    ensures Recorded(trace, steps, events, outcomes, faults) && |faults| == |outcomes| + 1
    ensures faults[0] == old(first.dev.env.faults) && faults[|outcomes|] <= first.dev.env.faults
    ensures |trace| == |steps| + 1 && trace[0] == old(first.State())
    ensures last.Ready() && last.dev == first.dev && trace[|steps|] == last.State()
    ensures last.footerBytes == first.footerBytes && Carried(old(first.State()), last.State(), first.footerBytes)
    ensures |steps| == |outcomes| <= |events|
    ensures |steps| < |events| ==>
              && events[|steps|].Restart?
              && (faults[|steps|] < first.dev.env.faults || NoWayBack(last.State(), first.footerBytes))
    ensures first.dev.env.Since(old(first.dev.env.faults), old(first.dev.env.Calm()))
  {
    hide Inv, Carried, Recorded, StepHolds, Answer, NoWayBack, Environment.Calm;
    last := first;
    outcomes := [];
    trace, steps := [first.State()], [];
    faults := [first.dev.env.faults];
    RecordStarts(first.State(), events, first.dev.env.faults);
    CarriedItself(first.State(), first.footerBytes);
    for i := 0 to |events|
      invariant Recorded(trace, steps, events, outcomes, faults) && |faults| == i + 1
      invariant faults[0] == old(first.dev.env.faults) && faults[i] == first.dev.env.faults
      invariant |trace| == |steps| + 1 && trace[0] == old(first.State()) && |steps| == |outcomes| == i
      invariant last == first || fresh(last)
      invariant last.Ready() && last.writable && last.dev == first.dev && trace[|steps|] == last.State()
      invariant last.footerBytes == first.footerBytes
      invariant Carried(old(first.State()), last.State(), first.footerBytes)
      invariant |last.dev.bytes| < U64_LIMIT
      invariant first.dev.env.Since(old(first.dev.env.faults), old(first.dev.env.Calm()))
    {
      ghost var d0 := last.State();
      LengthBounds(d0);
      var next, outcome := DoEvent(last, events[i]);
      if next.None? {
        return;
      }
      last := next.value;
      CarriedFurther(old(first.State()), d0, last.State(), first.footerBytes);
      RecordExtends(trace, steps, events, outcomes, faults, d0, outcome, last.State(), first.dev.env.faults);
      trace, steps := trace + [last.State()], steps + [StepOf(events[i], outcome)];
      outcomes, faults := outcomes + [outcome], faults + [first.dev.env.faults];
    }
  }

  /** A footer to come back to is never lost, and an image that is still cut has never grown. */
  ghost predicate Carried(d0: Disk, d1: Disk, footer: seq<byte>) {
    && (Recoverable(d0, footer) ==> Recoverable(d1, footer))
    && (Rooted(d0, footer) ==> Rooted(d1, footer))
    && (Rooted(d0, footer) && CutFull(d1, footer) ==> CutFull(d0, footer) && |d1.dev| == |d0.dev|)
  }

  lemma CarriedItself(d: Disk, footer: seq<byte>)
    ensures Carried(d, d, footer)
  {
  }

  lemma CarriedFurther(a: Disk, b: Disk, c: Disk, footer: seq<byte>)
    requires Carried(a, b, footer) && Carried(b, c, footer)
    ensures Carried(a, c, footer)
  {
    hide Rooted, CutFull;
  }

  lemma CarriedByKeeping(d0: Disk, d1: Disk, footer: seq<byte>)
    requires Inv(d0) && Keeps(d0, d1, footer)
    ensures Carried(d0, d1, footer)
  {
    hide Recoverable, CutFull;
    KeepsRecoverable(d0, d1, footer);
    if Rooted(d0, footer) {
      KeepsRooted(d0, d1, footer);
    }
  }

  /** One event: the handle after it, or none if a restart found no way back. */
  method DoEvent(rd: VhdReader, event: Event) returns (next: Option<VhdReader>, outcome: Outcome)
    requires rd.Ready() && rd.writable && |rd.dev.bytes| < U64_LIMIT
    modifies rd`bat, rd`nextAlloc, rd.dev, rd.dev.env
    ensures next.None? ==>
              && event.Restart? && rd.Ready() && rd.State() == old(rd.State())
              && (old(rd.dev.env.faults) < rd.dev.env.faults || NoWayBack(rd.State(), rd.footerBytes))
    ensures next.Some? ==>
              && (next.value == rd || fresh(next.value))
              && next.value.Ready() && next.value.writable && next.value.dev == rd.dev
              && next.value.footerBytes == rd.footerBytes && |rd.dev.bytes| < U64_LIMIT
              && Carried(old(rd.State()), next.value.State(), rd.footerBytes)
              && StepHolds(old(rd.State()), StepOf(event, outcome), next.value.State())
              && rd.L().blockSize > 0
              && Answer(event, outcome, old(rd.State()), old(rd.dev.env.faults) < rd.dev.env.faults)
    ensures rd.dev.env.Since(old(rd.dev.env.faults), old(rd.dev.env.Calm()))
  {
    hide Inv, Carried, StepHolds, Room, NoWayBack, Environment.Calm;
    LengthBounds(rd.State());
    match event {
      case Write(offset, data) =>
        outcome := DoWrite(rd, offset, data);
        next := Some(rd);
      case Restart =>
        next := DoRestart(rd);
        outcome := Pass;
    }
  }

  method DoWrite(rd: VhdReader, offset: nat, data: seq<byte>) returns (r: Outcome)
    requires rd.Ready() && rd.writable && |rd.dev.bytes| < U64_LIMIT
    modifies rd`bat, rd`nextAlloc, rd.dev, rd.dev.env
    ensures rd.Ready() && |rd.dev.bytes| < U64_LIMIT && rd.L().blockSize > 0
    ensures Carried(old(rd.State()), rd.State(), rd.footerBytes)
    ensures StepHolds(old(rd.State()), Wrote(offset, data, r.Pass?), rd.State())
    ensures Answer(Write(offset, data), r, old(rd.State()), old(rd.dev.env.faults) < rd.dev.env.faults)
    ensures rd.dev.env.Since(old(rd.dev.env.faults), old(rd.dev.env.Calm()))
  {
    hide Inv, Flat, Mixed, Landed, Allotted, BlocksMixed, Room, Carried, Recoverable, Anchored, Bounded,
      Environment.Calm;
    ghost var d0 := rd.State();
    LengthBounds(d0);
    InvIsBounded(d0);
    r := rd.WriteAt(offset, data);
    CarriedByKeeping(d0, rd.State(), rd.footerBytes);
    KeepsShort(d0, rd.State(), rd.footerBytes);
  }

  lemma KeepsShort(d0: Disk, d1: Disk, footer: seq<byte>)
    requires Keeps(d0, d1, footer) && |d0.dev| < U64_LIMIT
    ensures |d1.dev| < U64_LIMIT
  {
  }

  /** Bring the machine up and open the device anew; the handle is taken over if it is one on
      the same image: same footer, same layout, and a tail that has not moved back. */
  method DoRestart(rd: VhdReader) returns (r: Option<VhdReader>)
    requires rd.Ready() && rd.writable && |rd.dev.bytes| < U64_LIMIT
    modifies rd.dev.env
    ensures r.Some? ==>
              && fresh(r.value) && r.value.Ready() && r.value.writable && r.value.dev == rd.dev
              && r.value.footerBytes == rd.footerBytes
              && Carried(rd.State(), r.value.State(), rd.footerBytes)
              && StepHolds(rd.State(), Reopened, r.value.State())
    ensures r.None? ==> old(rd.dev.env.faults) < rd.dev.env.faults || NoWayBack(rd.State(), rd.footerBytes)
    ensures (forall f :: f in old(rd.dev.env.script) ==> f.Fine?) ==>
              rd.dev.env.Calm() && (r.Some? || NoWayBack(rd.State(), rd.footerBytes))
    ensures rd.dev.env.Since(old(rd.dev.env.faults), old(rd.dev.env.Calm()))
  {
    hide Inv, Flat, StepHolds, Carried, Opens, LayoutOf, NoWayBack;
    var dev := rd.dev;
    dev.env.Restart();
    ghost var d := rd.State();
    var found := OpenInner(dev, true, MAX_PARENT_DEPTH, None);
    if found.Err? {
      WayBackOpens(d, rd.footerBytes);
      return None;
    }
    if !found.value.footer.diskType.Dynamic? || found.value.footerBytes != rd.footerBytes
       || found.value.L() != rd.L() || found.value.nextAlloc < rd.nextAlloc
    {
      WayBackLeadsHere(d, found.value, rd.footerBytes);
      return None;
    }
    ReopenedSame(d, found.value, rd.footerBytes);
    return Some(found.value);
  }

  /** With a way back, an undisturbed open finds it. */
  lemma WayBackOpens(d: Disk, footer: seq<byte>)
    requires Inv(d)
    ensures Opens(d.dev, MAX_PARENT_DEPTH, None) || NoWayBack(d, footer)
  {
    hide Recoverable, CutFull, Opens;
    if Recoverable(d, footer) {
      RecoverableOpens(d, footer);
    } else if CutFull(d, footer) && !NoWayBack(d, footer) {
      CutFullOpens(d, footer);
    }
  }

  lemma CutFullOpens(d: Disk, footer: seq<byte>)
    requires CutFull(d, footer) && |d.dev| >= FOOTER_SIZE && !Footers.StartsWithCookie(LastSector(d.dev))
    ensures Opens(d.dev, MAX_PARENT_DEPTH, None)
  {
    hide Footers.Parse, OpenSparse;
    CutBounds(d, footer);
    var c, s := CutFullReopens(d, footer);
  }

  /** And what it finds is this image. */
  lemma WayBackLeadsHere(d: Disk, rd: VhdReader, footer: seq<byte>)
    requires Inv(d) && d.dev == rd.dev.bytes && rd.Valid() && OpenedAs(rd, rd.dev, true)
    requires !rd.footer.diskType.Dynamic? || rd.footerBytes != footer || rd.L() != d.l || rd.nextAlloc < d.tail
    ensures NoWayBack(d, footer)
  {
    hide OpenSparse, LayoutOf, Footers.Parse;
    if Recoverable(d, footer) {
      var c, s := RecoverableReopens(d, footer);
      OpenedLayout(rd, s);
    } else if CutFull(d, footer) && !NoWayBack(d, footer) {
      CutBounds(d, footer);
      var c, s := CutFullReopens(d, footer);
      OpenedLayout(rd, s);
    }
  }

  lemma OpenedLayout(rd: VhdReader, s: Images.Sparse)
    requires rd.Valid() && OpenedAs(rd, rd.dev, true) && rd.footer.diskType.Dynamic?
    requires OpenSparse(rd.dev.bytes, ChooseFooter(rd.dev.bytes).value) == Ok(s)
    ensures rd.L() == s.l
  {
  }

  /** A handle that passes those checks is one on the same disk, ready to be written. */
  lemma ReopenedSame(d: Disk, rd: VhdReader, footer: seq<byte>)
    requires Inv(d) && d.dev == rd.dev.bytes && rd.Valid() && OpenedAs(rd, rd.dev, true)
    requires rd.footer.diskType.Dynamic? && rd.footerBytes == footer && rd.L() == d.l && rd.nextAlloc >= d.tail
    ensures rd.Ready() && Carried(d, rd.State(), footer)
    ensures StepHolds(d, Reopened, rd.State())
  {
    hide LayoutOf, Flat, Footers.Parse, Carried, Rooted, CutFull, Recoverable;
    OpenedState(rd);
    LengthBounds(d);
    OpenedIsReady(rd, rd.dev, true);
    SameCachedBlocks(d, rd.State());
    LiveAgreesWithDevice(d);
    RestartCarries(d, rd, footer);
  }

  lemma OpenedState(rd: VhdReader)
    requires rd.Valid() && OpenedAs(rd, rd.dev, true) && rd.footer.diskType.Dynamic?
    ensures OpenSparse(rd.dev.bytes, ChooseFooter(rd.dev.bytes).value).Ok?
    ensures rd.State() == DiskOf(rd.dev.bytes, OpenSparse(rd.dev.bytes, ChooseFooter(rd.dev.bytes).value).value)
    ensures rd.bat == Table(rd.L(), rd.dev.bytes)
  {
  }

  lemma SameCachedBlocks(d: Disk, d': Disk)
    requires Inv(d) && d'.l == d.l && d'.dev == d.dev && d'.bat == Table(d.l, d.dev) && d'.tail >= d.tail
    ensures Advances(d, d')
  {
  }

  lemma RestartCarries(d: Disk, rd: VhdReader, footer: seq<byte>)
    requires Inv(d) && d.dev == rd.dev.bytes && rd.Valid() && OpenedAs(rd, rd.dev, true)
    requires rd.footer.diskType.Dynamic? && rd.footerBytes == footer && rd.L() == d.l
    ensures Carried(d, rd.State(), footer)
  {
    hide LayoutOf, Flat, Footers.Parse, Inv, Recoverable, OpenSparse, ChooseFooter, Table;
    OpenedState(rd);
    if Recoverable(d, footer) {
      var c, s := RecoverableReopens(d, footer);
      RecoverableIsNotCut(rd.State(), footer);
    } else if CutFull(d, footer) {
      CutReopens(d, footer);
      var c, s := CutFullReopens(d, footer);
    }
  }

  lemma RecoverableOpens(d: Disk, footer: seq<byte>)
    requires Inv(d) && Recoverable(d, footer)
    ensures Opens(d.dev, MAX_PARENT_DEPTH, None)
  {
    var c, s := RecoverableReopens(d, footer);
  }

  /** What reopening a recoverable image yields: the same disk, ready to be written. */
  lemma ReopenedIsReady(d: Disk, rd: VhdReader, footer: seq<byte>)
    requires Inv(d) && Recoverable(d, footer) && d.dev == rd.dev.bytes
    requires rd.Valid() && OpenedAs(rd, rd.dev, true)
    ensures rd.Ready() && rd.State().l == d.l && rd.footerBytes == footer
    ensures Recoverable(rd.State(), footer)
    ensures StepHolds(d, Reopened, rd.State())
  {
    var c, s := RecoverableReopens(d, footer);
    assert rd.State() == DiskOf(d.dev, s);
    forall i | 0 <= i < d.l.entries && d.bat[i] != UNALLOCATED ensures s.bat[i] == d.bat[i] {
      assert Table(d.l, d.dev)[i] == d.bat[i];
    }
  }

  /** The same, for a handle whose tail stood at the end of the device. */
  lemma ReopenedExactly(d: Disk, rd: VhdReader, footer: seq<byte>)
    requires Inv(d) && Recoverable(d, footer) && d.dev == rd.dev.bytes && |d.dev| == d.tail + FOOTER_SIZE
    requires d.bat == Table(d.l, d.dev) && rd.Valid() && OpenedAs(rd, rd.dev, true)
    ensures rd.Ready() && rd.State() == d && rd.footerBytes == footer
  {
    ReopenedIsReady(d, rd, footer);
    var c, s := RecoverableReopens(d, footer);
  }

  // ---- What a whole run guarantees ----

  lemma {:induction false} TraceAdvances(trace: seq<Disk>, steps: seq<Step>, a: nat, b: nat)
    requires TraceHolds(trace, steps) && a <= b < |trace|
    ensures Advances(trace[a], trace[b])
    decreases b - a
  {
    if a < b {
      TraceAdvances(trace, steps, a, b - 1);
      assert StepHolds(trace[b - 1], steps[b - 1], trace[b]);
      AdvancesTransitive(trace[a], trace[b - 1], trace[b]);
    }
  }

  /** Between two points of a run: what the cache named stays named and is what the device's
      table says; a block named only later shares no byte with one named before; and what is
      named at one point is pairwise disjoint, above the metadata and below the tail. */
  ghost predicate NotReissued(d0: Disk, d1: Disk, i: nat, j: nat)
    requires i < d0.l.entries && j < d0.l.entries
  {
    && d1.l == d0.l && |d0.bat| == |d1.bat| == d0.l.entries
    && var l := d0.l;
       var was, now := Table(l, d0.dev), Table(l, d1.dev);
       && (d0.bat[i] != UNALLOCATED ==> d0.bat[i] == was[i] && d1.bat[i] == was[i])
       && (was[i] != UNALLOCATED && now[j] != was[j] ==> now[j] != UNALLOCATED && Apart(l, was[i], now[j]))
       && (was[i] != UNALLOCATED && was[j] != UNALLOCATED && i != j ==> Apart(l, was[i], was[j]))
       && (was[i] != UNALLOCATED ==> l.dataStart <= Home(was[i]) && Home(was[i]) + l.Total() <= d0.tail)
  }

  /** Over a whole run with faults and restarts, no range that the device's table or the cache
      named at any point is handed out again. */
  lemma NeverReissued(trace: seq<Disk>, steps: seq<Step>, a: nat, b: nat, i: nat, j: nat)
    requires TraceHolds(trace, steps) && a <= b < |trace|
    requires i < trace[a].l.entries && j < trace[a].l.entries
    ensures NotReissued(trace[a], trace[b], i, j)
  {
    TraceAdvances(trace, steps, a, b);
    var d0, d1 := trace[a], trace[b];
    if Table(d0.l, d0.dev)[i] != UNALLOCATED && Table(d1.l, d1.dev)[j] != Table(d0.l, d0.dev)[j] {
      NothingHandedOutTwice(d0, d1, i, j);
    }
    NamedApartBothWays(d0, i, j);
  }

  lemma NamedApartBothWays(d: Disk, i: nat, j: nat)
    requires Inv(d) && i < d.l.entries && j < d.l.entries
    ensures var t := Table(d.l, d.dev);
            && (d.bat[i] != UNALLOCATED ==> d.bat[i] == t[i])
            && (t[i] != UNALLOCATED && t[j] != UNALLOCATED && i != j ==> Apart(d.l, t[i], t[j]))
            && (t[i] != UNALLOCATED ==> d.l.dataStart <= Home(t[i]) && Home(t[i]) + d.l.Total() <= d.tail)
  {
    var t := Table(d.l, d.dev);
    if i < j && t[i] != UNALLOCATED && t[j] != UNALLOCATED {
      assert Apart(d.l, t[i], t[j]);
    } else if j < i && t[i] != UNALLOCATED && t[j] != UNALLOCATED {
      assert Apart(d.l, t[j], t[i]);
    }
  }

  /** A write step that lies inside the disk and covers byte `v`. */
  predicate Covers(step: Step, size: nat, v: nat) {
    step.Wrote? && step.offset + |step.data| <= size && step.offset <= v < step.offset + |step.data|
  }

  /** Every byte of the disk at the end of a run is the byte of some write that covers it, or
      the byte it had at the start, and no write acknowledged after that one covers it: an
      acknowledged write is lost to nothing but a later write. */
  lemma {:induction false} EveryByteExplained(trace: seq<Disk>, steps: seq<Step>, v: nat) returns (k: nat)
    requires TraceHolds(trace, steps) && v < trace[0].l.virtualSize
    ensures trace[|steps|].l == trace[0].l && trace[0].l.blockSize > 0
    ensures k <= |steps|
    ensures k == 0 ==> Contents(trace[|steps|])[v] == Contents(trace[0])[v]
    ensures k > 0 ==> Covers(steps[k - 1], trace[0].l.virtualSize, v)
                      && Contents(trace[|steps|])[v] == steps[k - 1].data[v - steps[k - 1].offset]
    ensures forall j :: k <= j < |steps| && Covers(steps[j], trace[0].l.virtualSize, v) ==> !steps[j].acknowledged
    decreases |steps|
  {
    hide Inv, Flat, StepHolds, Mixed, TraceHolds;
    if steps == [] {
      TraceEnds(trace, steps);
      k := 0;
    } else {
      var n := |steps| - 1;
      TraceEnds(trace, steps);
      TracePrefix(trace, steps);
      LastStep(trace, steps);
      k := EveryByteExplained(trace[..n + 1], steps[..n], v);
      var c0, c1 := Contents(trace[n]), Contents(trace[n + 1]);
      ByteAfterStep(trace[n], steps[n], trace[n + 1], v);
      if Covers(steps[n], trace[0].l.virtualSize, v) && (steps[n].acknowledged || c1[v] != c0[v]) {
        k := n + 1;
      }
    }
  }

  lemma TraceEnds(trace: seq<Disk>, steps: seq<Step>)
    requires TraceHolds(trace, steps)
    ensures |trace| == |steps| + 1 && trace[|steps|].l == trace[0].l && trace[0].l.blockSize > 0
  {
    TraceAdvances(trace, steps, 0, |steps|);
    assert Inv(trace[0]);
  }

  lemma LastStep(trace: seq<Disk>, steps: seq<Step>)
    requires TraceHolds(trace, steps) && steps != []
    ensures var n := |steps| - 1;
            && |trace| == n + 2 && Inv(trace[n]) && Inv(trace[n + 1])
            && StepHolds(trace[n], steps[n], trace[n + 1])
  {
  }

  lemma TracePrefix(trace: seq<Disk>, steps: seq<Step>)
    requires TraceHolds(trace, steps) && steps != []
    ensures TraceHolds(trace[..|steps|], steps[..|steps| - 1])
  {
    var t, s := trace[..|steps|], steps[..|steps| - 1];
    forall k | 0 <= k < |t| ensures Inv(t[k]) {
      assert t[k] == trace[k];
    }
    forall k | 0 <= k < |s| ensures StepHolds(t[k], s[k], t[k + 1]) {
      assert s[k] == steps[k] && t[k] == trace[k] && t[k + 1] == trace[k + 1];
    }
  }

  lemma ByteAfterStep(d0: Disk, step: Step, d1: Disk, v: nat)
    requires Inv(d0) && Inv(d1) && StepHolds(d0, step, d1) && v < d0.l.virtualSize
    ensures d1.l == d0.l
    ensures !Covers(step, d0.l.virtualSize, v) ==> Contents(d1)[v] == Contents(d0)[v]
    ensures Covers(step, d0.l.virtualSize, v) ==>
              Contents(d1)[v] == step.data[v - step.offset] || (!step.acknowledged
                && Contents(d1)[v] == Contents(d0)[v])
  {
    var c0, c1 := Contents(d0), Contents(d1);
    if step.Wrote? && step.offset + |step.data| <= d0.l.virtualSize {
      assert c1[v] == c1[v];
      if step.acknowledged {
        var c := Splice(c0, step.offset, step.data);
        assert At(c, v) == c[v] && At(c0, v) == c0[v];
      }
    }
  }

  // ---- The whole run, as its caller sees it ----

  /** The event writes byte `v` of a disk of `size` bytes. */
  predicate Writes(event: Event, size: nat, v: nat) {
    event.Write? && event.offset + |event.data| <= size && event.offset <= v < event.offset + |event.data|
  }

  /** Byte `v` at the end is the one that event `k - 1` wrote, or for `k == 0` the one at the
      start, and every later write of it was reported to the caller as failed. */
  ghost predicate ExplainedBy(c0: seq<byte>, c1: seq<byte>, events: seq<Event>, outcomes: seq<Outcome>, v: nat, k: nat)
    requires v < |c0| == |c1| && k <= |outcomes| <= |events|
  {
    && (k == 0 ==> c1[v] == c0[v])
    && (k > 0 ==> Writes(events[k - 1], |c0|, v) && c1[v] == events[k - 1].data[v - events[k - 1].offset])
    && forall j {:trigger outcomes[j]} :: k <= j < |outcomes| && Writes(events[j], |c0|, v) ==> outcomes[j].Fail?
  }

  ghost predicate ByteExplained(c0: seq<byte>, c1: seq<byte>, events: seq<Event>, outcomes: seq<Outcome>, v: nat)
    requires v < |c0| == |c1| && |outcomes| <= |events|
  {
    exists k: nat :: k <= |outcomes| && ExplainedBy(c0, c1, events, outcomes, v, k)
  }

  ghost predicate Explained(c0: seq<byte>, c1: seq<byte>, events: seq<Event>, outcomes: seq<Outcome>)
    requires |outcomes| <= |events|
  {
    && |c0| == |c1|
    && forall v: nat :: v < |c0| ==> ByteExplained(c0, c1, events, outcomes, v)
  }

  lemma RunExplained(trace: seq<Disk>, steps: seq<Step>, events: seq<Event>, outcomes: seq<Outcome>)
    requires TraceHolds(trace, steps) && StepsAre(steps, events, outcomes)
    ensures |trace| == |steps| + 1 && trace[|steps|].l == trace[0].l && trace[0].l.blockSize > 0
    ensures |outcomes| <= |events| && Explained(Contents(trace[0]), Contents(trace[|steps|]), events, outcomes)
  {
    hide TraceHolds, Flat, ByteExplained;
    TraceEnds(trace, steps);
    var c0, c1 := Contents(trace[0]), Contents(trace[|steps|]);
    forall v: nat | v < |c0| ensures ByteExplained(c0, c1, events, outcomes, v) {
      var k := EveryByteExplained(trace, steps, v);
      StepExplains(c0, c1, steps, events, outcomes, v, k);
    }
  }

  /** What explains a byte in terms of steps explains it in terms of what the caller saw. */
  lemma StepExplains(c0: seq<byte>, c1: seq<byte>, steps: seq<Step>, events: seq<Event>, outcomes: seq<Outcome>,
    v: nat, k: nat)
    requires StepsAre(steps, events, outcomes) && v < |c0| == |c1| && k <= |steps|
    requires k == 0 ==> c1[v] == c0[v]
    requires k > 0 ==> Covers(steps[k - 1], |c0|, v) && c1[v] == steps[k - 1].data[v - steps[k - 1].offset]
    requires forall j :: k <= j < |steps| && Covers(steps[j], |c0|, v) ==> !steps[j].acknowledged
    ensures ByteExplained(c0, c1, events, outcomes, v)
  {
    forall j | k <= j < |outcomes| && Writes(events[j], |c0|, v) ensures outcomes[j].Fail? {
      assert steps[j] == StepOf(events[j], outcomes[j]);
    }
    if k > 0 {
      assert steps[k - 1] == StepOf(events[k - 1], outcomes[k - 1]);
    }
    assert ExplainedBy(c0, c1, events, outcomes, v, k);
  }

  /** No space is handed out twice between any two points of the run. */
  ghost predicate NothingReissued(trace: seq<Disk>) {
    forall a: nat, b: nat, i: nat, j: nat {:trigger NotReissued(trace[a], trace[b], i, j)} ::
      a <= b < |trace| && i < trace[a].l.entries && j < trace[a].l.entries ==> NotReissued(trace[a], trace[b], i, j)
  }

  /** Any events on any handle ready to be written: no write reported as done is lost to
      anything but a later write, no space is handed out twice, and a footer to come back to is
      kept.  The run ends early only at a restart whose open was struck, or on an image with no
      way back.  The disks on the way, one before and one after every event, are given in
      `trace`, and the count of faults so far in `faults`. */
  method Run(first: VhdReader, events: seq<Event>)
    returns (last: VhdReader, outcomes: seq<Outcome>, ghost trace: seq<Disk>, ghost faults: seq<nat>)
    requires first.Ready() && first.writable && |first.dev.bytes| < U64_LIMIT
    modifies first`bat, first`nextAlloc, first.dev, first.dev.env
    ensures Answers(events, outcomes, trace, faults)
    ensures |outcomes| <= |events| && |faults| == |outcomes| + 1
    ensures faults[0] == old(first.dev.env.faults) && faults[|outcomes|] <= first.dev.env.faults
    ensures last.Ready() && last.dev == first.dev
    ensures |outcomes| < |events| ==>
              && events[|outcomes|].Restart?
              && (faults[|outcomes|] < first.dev.env.faults || NoWayBack(last.State(), first.footerBytes))
    ensures first.dev.env.Since(old(first.dev.env.faults), old(first.dev.env.Calm()))
    ensures Carried(old(first.State()), last.State(), first.footerBytes)
    ensures Explained(old(Contents(first.State())), Contents(last.State()), events, outcomes)
    ensures |trace| == |outcomes| + 1 && trace[0] == old(first.State()) && trace[|outcomes|] == last.State()
    ensures NothingReissued(trace)
  {
    hide Inv, TraceHolds, StepHolds, NotReissued, Flat, Explained, Answers, Carried, NoWayBack, Environment.Calm;
    ghost var steps;
    last, outcomes, trace, steps, faults := Perform(first, events);
    RunExplained(trace, steps, events, outcomes);
    forall a: nat, b: nat, i: nat, j: nat | a <= b < |trace| && i < trace[a].l.entries && j < trace[a].l.entries
      ensures NotReissued(trace[a], trace[b], i, j)
    {
      NeverReissued(trace, steps, a, b, i, j);
    }
  }
}
