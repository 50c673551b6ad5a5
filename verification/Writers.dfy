/** Concurrent writers on one handle.  Each writer runs its chunks one after the other; the
    lock makes one chunk indivisible, and the chunks of different writers interleave in any
    order.  Readers inside a writer's chunk are not part of this model. */
module Writers {
  import opened Bytes
  import opened Results
  import opened Format
  import opened Blocks
  import opened Disks
  import opened Images
  import opened Steps
  import opened Devices
  import opened Landing
  import opened Publishing
  import opened Readers

  datatype Job = Job(offset: nat, data: seq<byte>) {
    function End(): nat { offset + |data| }
  }

  /** Writes to pairwise disjoint byte ranges of the disk. */
  ghost predicate DisjointJobs(jobs: seq<Job>, size: nat) {
    && (forall w {:trigger jobs[w]} :: 0 <= w < |jobs| ==> jobs[w].End() <= size)
    && (forall w, x {:trigger jobs[w], jobs[x]} :: 0 <= w < x < |jobs| ==>
          jobs[w].End() <= jobs[x].offset || jobs[x].End() <= jobs[w].offset)
  }

  ghost predicate Progress(jobs: seq<Job>, done: seq<nat>) {
    |done| == |jobs| && forall w {:trigger done[w]} :: 0 <= w < |jobs| ==> done[w] <= |jobs[w].data|
  }

  /** No writer's range holds byte `v`. */
  ghost predicate Unclaimed(jobs: seq<Job>, v: int) {
    forall w {:trigger jobs[w]} :: 0 <= w < |jobs| ==> !(jobs[w].offset <= v < jobs[w].End())
  }

  /** The disk in the middle of an interleaving: what a writer has finished is there, what it
      has not reads old or new, and bytes of no writer are untouched. */
  ghost predicate Interleaved(c0: seq<byte>, c: seq<byte>, jobs: seq<Job>, done: seq<nat>)
    requires Progress(jobs, done)
  {
    && |c| == |c0|
    && (forall w, v {:trigger jobs[w], c[v]} ::
          0 <= w < |jobs| && 0 <= v < |c| && jobs[w].offset <= v < jobs[w].offset + done[w] ==>
            c[v] == jobs[w].data[v - jobs[w].offset])
    && (forall w, v {:trigger jobs[w], c[v]} ::
          0 <= w < |jobs| && 0 <= v < |c| && jobs[w].offset + done[w] <= v < jobs[w].End() ==>
            c[v] == c0[v] || c[v] == jobs[w].data[v - jobs[w].offset])
    && (forall v {:trigger c[v]} :: 0 <= v < |c| && Unclaimed(jobs, v) ==> c[v] == c0[v])
  }

  /** A chunk of writer `w` landed, or part of it did: still an interleaving. */
  lemma ChunkInterleaves(c0: seq<byte>, c: seq<byte>, c': seq<byte>, jobs: seq<Job>, done: seq<nat>, w: nat, n: nat,
    landed: bool)
    requires Progress(jobs, done) && Interleaved(c0, c, jobs, done) && DisjointJobs(jobs, |c0|)
    requires w < |jobs| && done[w] + n <= |jobs[w].data|
    requires Mixed(c, c', jobs[w].offset + done[w], jobs[w].data[done[w]..done[w] + n])
    requires landed ==> c' == Splice(c, jobs[w].offset + done[w], jobs[w].data[done[w]..done[w] + n])
    ensures var done' := if landed then done[w := done[w] + n] else done;
            Progress(jobs, done') && Interleaved(c0, c', jobs, done')
  {
    var done' := if landed then done[w := done[w] + n] else done;
    var lo, chunk := jobs[w].offset + done[w], jobs[w].data[done[w]..done[w] + n];
    forall x, v | 0 <= x < |jobs| && 0 <= v < |c| && jobs[x].offset <= v < jobs[x].offset + done'[x]
      ensures c'[v] == jobs[x].data[v - jobs[x].offset]
    {
      LandedByte(c, c', jobs, w, x, lo, chunk, v);
      if landed {
        SpliceAt(c, lo, chunk, v);
      }
    }
    forall x, v | 0 <= x < |jobs| && 0 <= v < |c| && jobs[x].offset + done'[x] <= v < jobs[x].End()
      ensures c'[v] == c0[v] || c'[v] == jobs[x].data[v - jobs[x].offset]
    {
      LandedByte(c, c', jobs, w, x, lo, chunk, v);
    }
    forall v | 0 <= v < |c| && Unclaimed(jobs, v)
      ensures c'[v] == c0[v]
    {
      assert !(jobs[w].offset <= v < jobs[w].End());
    }
  }

  lemma SpliceAt(c: seq<byte>, lo: nat, chunk: seq<byte>, v: nat)
    requires lo + |chunk| <= |c| && v < |c|
    ensures Splice(c, lo, chunk)[v] == if lo <= v < lo + |chunk| then chunk[v - lo] else c[v]
  {
    var d := Splice(c, lo, chunk);
    assert At(d, v) == d[v] && At(c, v) == c[v];
  }

  /** A byte of writer `x` after a chunk of writer `w`: its own old byte, or its own new one. */
  lemma LandedByte(c: seq<byte>, c': seq<byte>, jobs: seq<Job>, w: nat, x: nat, lo: nat, chunk: seq<byte>, v: nat)
    requires DisjointJobs(jobs, |c|) && w < |jobs| && x < |jobs| && v < |c|
    requires jobs[w].offset <= lo && lo + |chunk| <= jobs[w].End() && Mixed(c, c', lo, chunk)
    requires chunk == jobs[w].data[lo - jobs[w].offset..lo - jobs[w].offset + |chunk|]
    requires jobs[x].offset <= v < jobs[x].End()
    ensures c'[v] == c[v] || (lo <= v < lo + |chunk| && x == w && c'[v] == jobs[x].data[v - jobs[x].offset])
    ensures x != w ==> !(lo <= v < lo + |chunk|)
  {
    if x < w {
      assert jobs[x].End() <= jobs[w].offset || jobs[w].End() <= jobs[x].offset;
    } else if w < x {
      assert jobs[w].End() <= jobs[x].offset || jobs[x].End() <= jobs[w].offset;
    } else if lo <= v < lo + |chunk| {
      assert chunk[v - lo] == jobs[x].data[v - jobs[x].offset];
    }
  }

  /** Every writer has finished: the disk is fixed byte by byte, whatever the order was. */
  lemma FinishedIsUnique(c0: seq<byte>, c: seq<byte>, e: seq<byte>, jobs: seq<Job>, done: seq<nat>)
    requires Progress(jobs, done) && forall w {:trigger done[w]} :: 0 <= w < |jobs| ==> done[w] == |jobs[w].data|
    requires Interleaved(c0, c, jobs, done) && Interleaved(c0, e, jobs, done)
    ensures c == e
  {
    forall v | 0 <= v < |c0| ensures c[v] == e[v] {
      if w :| 0 <= w < |jobs| && jobs[w].offset <= v < jobs[w].End() {
        assert done[w] == |jobs[w].data|;
        assert c[v] == jobs[w].data[v - jobs[w].offset];
        assert e[v] == jobs[w].data[v - jobs[w].offset];
      } else {
        assert Unclaimed(jobs, v);
        assert c[v] == c0[v] && e[v] == c0[v];
      }
    }
  }

  /** Applying the writes one after the other, each whole. */
  ghost function ApplyAll(c0: seq<byte>, jobs: seq<Job>): (c: seq<byte>)
    requires DisjointJobs(jobs, |c0|)
    ensures |c| == |c0|
  {
    if jobs == [] then c0
    else
      var n := |jobs| - 1;
      PrefixDisjoint(jobs, |c0|);
      assert jobs[n].End() <= |c0|;
      Splice(ApplyAll(c0, jobs[..n]), jobs[n].offset, jobs[n].data)
  }

  lemma PrefixDisjoint(jobs: seq<Job>, size: nat)
    requires DisjointJobs(jobs, size) && jobs != []
    ensures DisjointJobs(jobs[..|jobs| - 1], size)
  {
    var p := jobs[..|jobs| - 1];
    forall w | 0 <= w < |p| ensures p[w].End() <= size {
      assert p[w] == jobs[w];
    }
    forall w, x | 0 <= w < x < |p| ensures p[w].End() <= p[x].offset || p[x].End() <= p[w].offset {
      assert p[w] == jobs[w] && p[x] == jobs[x];
    }
  }

  ghost function AllDone(jobs: seq<Job>): (done: seq<nat>)
    ensures Progress(jobs, done) && forall w {:trigger done[w]} :: 0 <= w < |jobs| ==> done[w] == |jobs[w].data|
  {
    seq(|jobs|, w requires 0 <= w < |jobs| => |jobs[w].data|)
  }

  /** One after the other is one of the interleavings. */
  lemma {:induction false} SequentialIsInterleaved(c0: seq<byte>, jobs: seq<Job>)
    requires DisjointJobs(jobs, |c0|)
    ensures Interleaved(c0, ApplyAll(c0, jobs), jobs, AllDone(jobs))
  {
    if jobs != [] {
      var n := |jobs| - 1;
      PrefixDisjoint(jobs, |c0|);
      SequentialIsInterleaved(c0, jobs[..n]);
      SequentialExtends(c0, jobs);
    }
  }

  lemma SequentialExtends(c0: seq<byte>, jobs: seq<Job>)
    requires DisjointJobs(jobs, |c0|) && jobs != [] && DisjointJobs(jobs[..|jobs| - 1], |c0|)
    requires Interleaved(c0, ApplyAll(c0, jobs[..|jobs| - 1]), jobs[..|jobs| - 1], AllDone(jobs[..|jobs| - 1]))
    ensures Interleaved(c0, ApplyAll(c0, jobs), jobs, AllDone(jobs))
  {
    hide Interleaved, ApplyAll, DisjointJobs;
    var n := |jobs| - 1;
    var b := ApplyAll(c0, jobs[..n]);
    JobFits(jobs, n, |c0|);
    LastApplied(c0, jobs);
    LastSplice(c0, b, Splice(b, jobs[n].offset, jobs[n].data), jobs);
  }

  lemma LastSplice(c0: seq<byte>, b: seq<byte>, c: seq<byte>, jobs: seq<Job>)
    requires DisjointJobs(jobs, |c0|) && jobs != [] && |b| == |c0| && jobs[|jobs| - 1].End() <= |b|
    requires Interleaved(c0, b, jobs[..|jobs| - 1], AllDone(jobs[..|jobs| - 1]))
    requires c == Splice(b, jobs[|jobs| - 1].offset, jobs[|jobs| - 1].data)
    ensures Interleaved(c0, c, jobs, AllDone(jobs))
  {
    hide Interleaved, DisjointJobs, Splice;
    forall w, v | 0 <= w < |jobs| && 0 <= v < |c| && jobs[w].offset <= v < jobs[w].End()
      ensures c[v] == jobs[w].data[v - jobs[w].offset]
    {
      EarlierByteStays(c0, b, jobs, w, v);
    }
    forall v | 0 <= v < |c| && Unclaimed(jobs, v)
      ensures c[v] == c0[v]
    {
      UnclaimedByteStays(c0, b, jobs, v);
    }
    AllWritten(c0, c, jobs);
  }

  lemma LastApplied(c0: seq<byte>, jobs: seq<Job>)
    requires DisjointJobs(jobs, |c0|) && jobs != [] && DisjointJobs(jobs[..|jobs| - 1], |c0|)
    ensures jobs[|jobs| - 1].End() <= |c0|
    ensures ApplyAll(c0, jobs) == Splice(ApplyAll(c0, jobs[..|jobs| - 1]), jobs[|jobs| - 1].offset,
            jobs[|jobs| - 1].data)
  {
  }

  lemma AllWritten(c0: seq<byte>, c: seq<byte>, jobs: seq<Job>)
    requires |c| == |c0|
    requires forall w, v {:trigger jobs[w], c[v]} ::
               0 <= w < |jobs| && 0 <= v < |c| && jobs[w].offset <= v < jobs[w].End() ==>
                 c[v] == jobs[w].data[v - jobs[w].offset]
    requires forall v {:trigger c[v]} :: 0 <= v < |c| && Unclaimed(jobs, v) ==> c[v] == c0[v]
    ensures Interleaved(c0, c, jobs, AllDone(jobs))
  {
  }

  /** Whatever the order in which disjoint writes interleaved, once all have finished the
      disk is the one that applying them one after the other gives. */
  lemma AnyOrderIsSequential(c0: seq<byte>, c: seq<byte>, jobs: seq<Job>, done: seq<nat>)
    requires DisjointJobs(jobs, |c0|) && Progress(jobs, done) && Interleaved(c0, c, jobs, done)
    requires forall w {:trigger done[w]} :: 0 <= w < |jobs| ==> done[w] == |jobs[w].data|
    ensures c == ApplyAll(c0, jobs)
  {
    SequentialIsInterleaved(c0, jobs);
    assert done == AllDone(jobs);
    FinishedIsUnique(c0, c, ApplyAll(c0, jobs), jobs, done);
  }

  lemma EarlierByteStays(c0: seq<byte>, b: seq<byte>, jobs: seq<Job>, w: nat, v: nat)
    requires DisjointJobs(jobs, |c0|) && jobs != [] && w < |jobs| && jobs[w].offset <= v < jobs[w].End()
    requires Interleaved(c0, b, jobs[..|jobs| - 1], AllDone(jobs[..|jobs| - 1]))
    ensures v < |b| == |c0| && jobs[|jobs| - 1].End() <= |b|
    ensures Splice(b, jobs[|jobs| - 1].offset, jobs[|jobs| - 1].data)[v] == jobs[w].data[v - jobs[w].offset]
  {
    var n := |jobs| - 1;
    var p := jobs[..n];
    assert jobs[w].End() <= |c0| && jobs[n].End() <= |c0|;
    SpliceAt(b, jobs[n].offset, jobs[n].data, v);
    if w < n {
      assert p[w] == jobs[w] && AllDone(p)[w] == |jobs[w].data|;
      assert b[v] == p[w].data[v - p[w].offset];
      assert jobs[w].End() <= jobs[n].offset || jobs[n].End() <= jobs[w].offset;
    }
  }

  lemma UnclaimedByteStays(c0: seq<byte>, b: seq<byte>, jobs: seq<Job>, v: nat)
    requires DisjointJobs(jobs, |c0|) && jobs != [] && v < |c0|
    requires Interleaved(c0, b, jobs[..|jobs| - 1], AllDone(jobs[..|jobs| - 1]))
    requires Unclaimed(jobs, v)
    ensures |b| == |c0| && jobs[|jobs| - 1].End() <= |b|
    ensures Splice(b, jobs[|jobs| - 1].offset, jobs[|jobs| - 1].data)[v] == c0[v]
  {
    var n := |jobs| - 1;
    var p := jobs[..n];
    assert jobs[n].End() <= |c0|;
    SpliceAt(b, jobs[n].offset, jobs[n].data, v);
    assert !(jobs[n].offset <= v < jobs[n].End());
    assert Unclaimed(p, v) by {
      assert forall w :: 0 <= w < |p| ==> p[w] == jobs[w];
    }
  }

  // ---- Allocation under interleaving ----

  /** Blocks unallocated in `bat0` and allocated in `bat1`. */
  ghost function Fresh(bat0: seq<nat>, bat1: seq<nat>): set<nat>
    requires |bat0| == |bat1|
  {
    set i: nat | i < |bat0| && bat0[i] == UNALLOCATED && bat1[i] != UNALLOCATED
  }

  lemma FreshGrows(bat0: seq<nat>, bat1: seq<nat>, k: nat, e: nat)
    requires |bat0| == |bat1| && k < |bat0| && e != UNALLOCATED
    requires bat0[k] == UNALLOCATED && bat1[k] == UNALLOCATED
    ensures k !in Fresh(bat0, bat1) && Fresh(bat0, bat1[k := e]) == Fresh(bat0, bat1) + {k}
    ensures |Fresh(bat0, bat1[k := e])| == |Fresh(bat0, bat1)| + 1
  {
    assert Fresh(bat0, bat1[k := e]) == Fresh(bat0, bat1) + {k};
  }

  /** A block that holds a byte of some writer's range. */
  ghost predicate InSomeJob(l: Layout, jobs: seq<Job>, b: nat)
    requires l.blockSize > 0
  {
    exists w, v {:trigger jobs[w], BlockIndex(l, v)} ::
      0 <= w < |jobs| && jobs[w].offset <= v < jobs[w].End() && BlockIndex(l, v) == b
  }

  /** The blocks holding the bytes already written are allocated. */
  ghost predicate WrittenAllocated(l: Layout, jobs: seq<Job>, done: seq<nat>, bat: seq<nat>)
    requires l.blockSize > 0 && Progress(jobs, done)
  {
    forall w, v: nat {:trigger jobs[w], BlockIndex(l, v)} ::
      0 <= w < |jobs| && jobs[w].offset <= v < jobs[w].offset + done[w] ==>
        BlockIndex(l, v) < |bat| && bat[BlockIndex(l, v)] != UNALLOCATED
  }

  /** No allocation was repeated or wasted: as many as there are newly allocated blocks, and
      every newly allocated block belongs to some writer. */
  ghost predicate AllocatedOnce(l: Layout, jobs: seq<Job>, bat0: seq<nat>, tail0: nat, bat1: seq<nat>, tail1: nat)
    requires l.blockSize > 0
  {
    && |bat0| == |bat1|
    && tail1 == TailAfter(l, tail0, |Fresh(bat0, bat1)|)
    && (forall b :: b in Fresh(bat0, bat1) ==> InSomeJob(l, jobs, b))
    && Nameable(l, tail0, |Fresh(bat0, bat1)|)
  }

  /** The blocks that the writers must allocate between them. */
  ghost function Needed(l: Layout, jobs: seq<Job>, bat: seq<nat>): set<nat>
    requires l.blockSize > 0
  {
    set b: nat | b < |bat| && bat[b] == UNALLOCATED && InSomeJob(l, jobs, b)
  }

  ghost predicate Room(l: Layout, jobs: seq<Job>, bat: seq<nat>, tail: nat)
    requires l.blockSize > 0
  {
    Nameable(l, tail, |Needed(l, jobs, bat)|)
  }

  /** With room for all the blocks needed there is room for the next of them. */
  lemma RoomSuffices(l: Layout, jobs: seq<Job>, bat0: seq<nat>, tail0: nat, bat1: seq<nat>, tail1: nat, k: nat)
    requires l.blockSize > 0 && AllocatedOnce(l, jobs, bat0, tail0, bat1, tail1) && Room(l, jobs, bat0, tail0)
    requires k < |bat1| && bat0[k] == UNALLOCATED && bat1[k] == UNALLOCATED && InSomeJob(l, jobs, k)
    ensures tail1 / SECTOR < UNALLOCATED
  {
    hide InSomeJob;
    var taken, needed := Fresh(bat0, bat1), Needed(l, jobs, bat0);
    OneMore(taken, needed, k);
    TailAfterRises(l, tail0, |taken|, |needed| - 1);
  }

  /** Writers that have all finished have allocated exactly the blocks they needed. */
  lemma FinishedHadRoom(l: Layout, jobs: seq<Job>, done: seq<nat>, bat0: seq<nat>, tail0: nat,
    bat1: seq<nat>, tail1: nat)
    requires l.blockSize > 0 && AllocatedOnce(l, jobs, bat0, tail0, bat1, tail1)
    requires Progress(jobs, done) && WrittenAllocated(l, jobs, done, bat1)
    requires forall w {:trigger done[w]} :: 0 <= w < |jobs| ==> done[w] == |jobs[w].data|
    ensures Fresh(bat0, bat1) == Needed(l, jobs, bat0) && Room(l, jobs, bat0, tail0)
  {
    forall b | b in Needed(l, jobs, bat0) ensures b in Fresh(bat0, bat1) {
      var w, v :| 0 <= w < |jobs| && jobs[w].offset <= v < jobs[w].End() && BlockIndex(l, v) == b;
      assert done[w] == |jobs[w].data|;
    }
  }

  // ---- Turns ----

  /** The chunks that the rest of a job takes: one for every block it still reaches. */
  ghost function ChunksLeft(l: Layout, job: Job, done: nat): int
    requires l.blockSize > 0
  {
    if done >= |job.data| then 0 else BlockIndex(l, job.End() - 1) - BlockIndex(l, job.offset + done) + 1
  }

  ghost function Turns(schedule: seq<nat>, w: nat): nat { multiset(schedule)[w] }

  /** Every writer has a turn for each of its chunks. */
  ghost predicate Enough(l: Layout, jobs: seq<Job>, schedule: seq<nat>)
    requires l.blockSize > 0
  {
    forall w {:trigger jobs[w]} :: 0 <= w < |jobs| ==> ChunksLeft(l, jobs[w], 0) <= Turns(schedule, w)
  }

  /** No turn was wasted: a writer has finished, or every turn took it one chunk further. */
  ghost predicate OnSchedule(l: Layout, jobs: seq<Job>, done: seq<nat>, schedule: seq<nat>)
    requires l.blockSize > 0 && Progress(jobs, done)
  {
    forall w {:trigger done[w]} :: 0 <= w < |jobs| ==>
      done[w] == |jobs[w].data| || ChunksLeft(l, jobs[w], done[w]) + Turns(schedule, w) <= ChunksLeft(l, jobs[w], 0)
  }

  lemma TurnCounted(schedule: seq<nat>, i: nat, w: nat)
    requires i < |schedule|
    ensures Turns(schedule[..i + 1], w) == Turns(schedule[..i], w) + if schedule[i] == w then 1 else 0
  {
    assert schedule[..i + 1] == schedule[..i] + [schedule[i]];
  }

  /** A chunk that ends at its block's end or at the job's is one chunk less to do. */
  lemma OneChunkLess(l: Layout, job: Job, done: nat, n: nat, k: nat, inBlock: nat)
    requires l.blockSize > 0 && 0 < n && done + n <= |job.data|
    requires IsAt(l, job.offset + done, k, inBlock) && inBlock + n <= l.blockSize
    requires done + n == |job.data| || inBlock + n == l.blockSize
    ensures ChunksLeft(l, job, done + n) == ChunksLeft(l, job, done) - 1
  {
    if done + n == |job.data| {
      ChunkIsInBlock(l, job.offset + done, k, inBlock, n, job.End() - 1,
                     BlockIndex(l, job.End() - 1), InBlock(l, job.End() - 1));
    } else {
      NextBlockStarts(l, job.offset + done, k, inBlock, n);
    }
  }

  lemma SomeChunkLeft(l: Layout, job: Job, done: nat)
    requires l.blockSize > 0 && done < |job.data|
    ensures ChunksLeft(l, job, done) >= 1
  {
    var a, b := job.offset + done, job.End() - 1;
    Remainder(a, l.blockSize);
    Remainder(b, l.blockSize);
    if BlockIndex(l, b) < BlockIndex(l, a) {
      MulMonotone(BlockIndex(l, b) + 1, BlockIndex(l, a), l.blockSize);
    }
  }

  lemma TurnTaken(l: Layout, jobs: seq<Job>, done: seq<nat>, schedule: seq<nat>, i: nat, n: nat)
    requires l.blockSize > 0 && Progress(jobs, done) && i < |schedule| && OnSchedule(l, jobs, done, schedule[..i])
    requires var w := schedule[i];
             if w < |jobs| && done[w] < |jobs[w].data|
             then done[w] + n <= |jobs[w].data|
                  && ChunksLeft(l, jobs[w], done[w] + n) == ChunksLeft(l, jobs[w], done[w]) - 1
             else n == 0
    ensures var w := schedule[i];
            var done' := if w < |jobs| then done[w := done[w] + n] else done;
            Progress(jobs, done') && OnSchedule(l, jobs, done', schedule[..i + 1])
  {
    hide ChunksLeft, Turns;
    var w := schedule[i];
    var done' := if w < |jobs| then done[w := done[w] + n] else done;
    forall x | 0 <= x < |jobs|
      ensures done'[x] == |jobs[x].data|
           || ChunksLeft(l, jobs[x], done'[x]) + Turns(schedule[..i + 1], x) <= ChunksLeft(l, jobs[x], 0)
    {
      TurnCounted(schedule, i, x);
      assert done[x] <= |jobs[x].data|;
    }
  }

  lemma EnoughFinishes(l: Layout, jobs: seq<Job>, done: seq<nat>, schedule: seq<nat>)
    requires l.blockSize > 0 && Progress(jobs, done) && OnSchedule(l, jobs, done, schedule) && Enough(l, jobs, schedule)
    ensures forall w {:trigger done[w]} :: 0 <= w < |jobs| ==> done[w] == |jobs[w].data|
  {
    forall w | 0 <= w < |jobs| ensures done[w] == |jobs[w].data| {
      if done[w] < |jobs[w].data| {
        SomeChunkLeft(l, jobs[w], done[w]);
      }
    }
  }

  lemma NoTurnsYet(l: Layout, jobs: seq<Job>, done: seq<nat>)
    requires l.blockSize > 0 && |done| == |jobs| && forall w {:trigger done[w]} :: 0 <= w < |jobs| ==> done[w] == 0
    ensures Progress(jobs, done) && OnSchedule(l, jobs, done, [])
  {
  }

  /** Take the writers' chunks in the order of `schedule`; a writer whose chunk fails stops. */
  method Interleave(rd: VhdReader, jobs: seq<Job>, schedule: seq<nat>) returns (done: seq<nat>, failed: bool)
    requires rd.Ready() && DisjointJobs(jobs, rd.virtualSize)
    modifies rd`bat, rd`nextAlloc, rd.dev, rd.dev.env
    ensures rd.Ready() && Keeps(old(rd.State()), rd.State(), rd.footerBytes)
    ensures Progress(jobs, done) && Interleaved(old(Contents(rd.State())), Contents(rd.State()), jobs, done)
    ensures WrittenAllocated(rd.L(), jobs, done, rd.bat)
    ensures !failed ==> AllocatedOnce(rd.L(), jobs, old(rd.bat), old(rd.nextAlloc), rd.bat, rd.nextAlloc)
    ensures !failed ==> OnSchedule(rd.L(), jobs, done, schedule)
    ensures !failed && Enough(rd.L(), jobs, schedule) ==>
              && (forall w :: 0 <= w < |jobs| ==> done[w] == |jobs[w].data|)
              && Contents(rd.State()) == ApplyAll(old(Contents(rd.State())), jobs)
              && Fresh(old(rd.bat), rd.bat) == Needed(rd.L(), jobs, old(rd.bat))
    ensures rd.dev.env.Since(old(rd.dev.env.faults), old(rd.dev.env.Calm()))
    ensures rd.dev.env.faults == old(rd.dev.env.faults) && old(Room(rd.L(), jobs, rd.bat, rd.nextAlloc)) ==> !failed
    ensures rd.dev.env.faults == old(rd.dev.env.faults) && Enough(rd.L(), jobs, schedule) ==>
              (!failed <==> old(Room(rd.L(), jobs, rd.bat, rd.nextAlloc)))
  {
    hide Inv, Keeps, Flat, Interleaved, WrittenAllocated, AllocatedOnce, OnSchedule, Enough, Room, Needed,
      Fresh, LayoutOf, DisjointJobs, ChunksLeft, ApplyAll, Environment.Calm;
    ghost var d0 := rd.State();
    ghost var c0 := Contents(d0);
    ghost var room := Room(rd.L(), jobs, rd.bat, rd.nextAlloc);
    KeepsItself(d0, rd.footerBytes);
    done := seq(|jobs|, w => 0);
    failed := false;
    var stopped := seq(|jobs|, w => false);
    NothingDone(c0, jobs, done, rd.L(), rd.bat, rd.nextAlloc);
    NoTurnsYet(rd.L(), jobs, done);
    assert schedule[..0] == [];
    for i := 0 to |schedule|
      invariant rd.Ready() && Keeps(d0, rd.State(), rd.footerBytes) && Contents(d0) == c0
      invariant |stopped| == |jobs| && Progress(jobs, done) && Interleaved(c0, Contents(rd.State()), jobs, done)
      invariant WrittenAllocated(rd.L(), jobs, done, rd.bat)
      invariant !failed ==> AllocatedOnce(rd.L(), jobs, d0.bat, d0.tail, rd.bat, rd.nextAlloc)
      invariant !failed ==> OnSchedule(rd.L(), jobs, done, schedule[..i])
      invariant !failed ==> forall w :: 0 <= w < |stopped| ==> !stopped[w]
      invariant rd.dev.env.Since(old(rd.dev.env.faults), old(rd.dev.env.Calm()))
      invariant room && failed ==> old(rd.dev.env.faults) < rd.dev.env.faults
    {
      var w, n := schedule[i], 0;
      ghost var was := done;
      if w < |jobs| && !stopped[w] && done[w] < |jobs[w].data| {
        var r;
        r, n := RunChunk(rd, jobs, done, w, d0, c0);
        if r.Pass? {
          done := done[w := done[w] + n];
        } else {
          stopped := stopped[w := true];
          failed := true;
        }
      }
      if !failed {
        TurnTaken(rd.L(), jobs, was, schedule, i, n);
        assert w < |jobs| && n == 0 ==> was[w := was[w] + n] == was;
      }
    }
    assert schedule[..|schedule|] == schedule;
    if !failed && Enough(rd.L(), jobs, schedule) {
      AllFinished(d0, rd.State(), c0, Contents(rd.State()), jobs, done, schedule);
    }
  }

  lemma AllFinished(d0: Disk, d1: Disk, c0: seq<byte>, c1: seq<byte>, jobs: seq<Job>, done: seq<nat>,
    schedule: seq<nat>)
    requires d1.l.blockSize > 0 && DisjointJobs(jobs, |c0|) && Progress(jobs, done) && Interleaved(c0, c1, jobs, done)
    requires OnSchedule(d1.l, jobs, done, schedule) && Enough(d1.l, jobs, schedule)
    requires WrittenAllocated(d1.l, jobs, done, d1.bat)
    requires AllocatedOnce(d1.l, jobs, d0.bat, d0.tail, d1.bat, d1.tail)
    ensures (forall w :: 0 <= w < |jobs| ==> done[w] == |jobs[w].data|) && c1 == ApplyAll(c0, jobs)
    ensures Fresh(d0.bat, d1.bat) == Needed(d1.l, jobs, d0.bat) && Room(d1.l, jobs, d0.bat, d0.tail)
  {
    hide Interleaved, WrittenAllocated, AllocatedOnce, OnSchedule, Enough, Room, Needed, Fresh, DisjointJobs, ApplyAll;
    EnoughFinishes(d1.l, jobs, done, schedule);
    FinishedHadRoom(d1.l, jobs, done, d0.bat, d0.tail, d1.bat, d1.tail);
    AnyOrderIsSequential(c0, c1, jobs, done);
  }

  lemma NothingDone(c0: seq<byte>, jobs: seq<Job>, done: seq<nat>, l: Layout, bat: seq<nat>, tail: nat)
    requires l.blockSize > 0 && |done| == |jobs| && forall w {:trigger done[w]} :: 0 <= w < |jobs| ==> done[w] == 0
    ensures Progress(jobs, done) && Interleaved(c0, c0, jobs, done)
    ensures WrittenAllocated(l, jobs, done, bat) && AllocatedOnce(l, jobs, bat, tail, bat, tail)
  {
    assert Fresh(bat, bat) == {};
  }

  /** The next chunk of writer `w`, under the lock. */
  method RunChunk(rd: VhdReader, jobs: seq<Job>, done: seq<nat>, w: nat, ghost d0: Disk, ghost c0: seq<byte>)
    returns (r: Outcome, n: nat)
    requires rd.Ready() && DisjointJobs(jobs, rd.virtualSize) && Keeps(d0, rd.State(), rd.footerBytes)
    requires |c0| == rd.virtualSize
    requires Progress(jobs, done) && Interleaved(c0, Contents(rd.State()), jobs, done)
    requires w < |jobs| && done[w] < |jobs[w].data|
    requires WrittenAllocated(rd.L(), jobs, done, rd.bat)
    modifies rd`bat, rd`nextAlloc, rd.dev, rd.dev.env
    ensures rd.Ready() && Keeps(d0, rd.State(), rd.footerBytes)
    ensures 0 < n && done[w] + n <= |jobs[w].data|
    ensures var done' := if r.Pass? then done[w := done[w] + n] else done;
            && Progress(jobs, done')
            && Interleaved(c0, Contents(rd.State()), jobs, done')
            && WrittenAllocated(rd.L(), jobs, done', rd.bat)
    ensures r.Pass? && old(AllocatedOnce(rd.L(), jobs, d0.bat, d0.tail, rd.bat, rd.nextAlloc)) ==>
              AllocatedOnce(rd.L(), jobs, d0.bat, d0.tail, rd.bat, rd.nextAlloc)
    ensures ChunksLeft(rd.L(), jobs[w], done[w] + n) == ChunksLeft(rd.L(), jobs[w], done[w]) - 1
    ensures rd.dev.env.Since(old(rd.dev.env.faults), old(rd.dev.env.Calm()))
    ensures Room(rd.L(), jobs, d0.bat, d0.tail) && rd.dev.env.faults == old(rd.dev.env.faults) ==>
              old(AllocatedOnce(rd.L(), jobs, d0.bat, d0.tail, rd.bat, rd.nextAlloc)) ==> r.Pass?
  {
    hide Inv, Keeps, Flat, Interleaved, WrittenAllocated, AllocatedOnce, Mixed, LayoutOf, DisjointJobs, Room,
      ChunksLeft, RawLanded, RawMixed, OtherBlocks, Bounded, Recoverable, Anchored, Environment.Calm;
    ghost var s0 := rd.State();
    JobFits(jobs, w, rd.virtualSize);
    LengthBounds(s0);
    var cursor := jobs[w].offset + done[w];
    var inBlock, blockIdx, chunk := rd.NextChunk(cursor, jobs[w].End());
    n := chunk;
    var src := jobs[w].data[done[w]..done[w] + n];
    InvIsBounded(s0);
    r := rd.WriteChunkLocked(cursor, blockIdx, inBlock, src);
    KeepsCached(s0, rd.State(), rd.footerBytes);
    OneChunkLess(s0.l, jobs[w], done[w], n, blockIdx, inBlock);
    if r.Fail? && s0.bat[blockIdx] == UNALLOCATED && s0.tail / SECTOR >= UNALLOCATED {
      NoRoomLeft(d0, s0, rd.footerBytes, jobs, w, done[w], blockIdx, inBlock);
    }
    ChunkRun(d0, s0, rd.State(), rd.footerBytes, c0, jobs, done, w, n, blockIdx, inBlock, r.Pass?);
  }

  lemma JobFits(jobs: seq<Job>, w: nat, size: nat)
    requires DisjointJobs(jobs, size) && w < |jobs|
    ensures jobs[w].End() <= size
  {
  }

  /** What one chunk does to the whole interleaving, on the disks before and after it. */
  lemma ChunkRun(d0: Disk, s0: Disk, s1: Disk, footer: seq<byte>, c0: seq<byte>, jobs: seq<Job>, done: seq<nat>,
                 w: nat, n: nat, k: nat, inBlock: nat, landed: bool)
    requires Keeps(d0, s0, footer) && Keeps(s0, s1, footer) && s0.l.blockSize > 0
    requires |c0| == s0.l.virtualSize && DisjointJobs(jobs, |c0|) && w < |jobs| && Progress(jobs, done)
    requires n > 0 && done[w] + n <= |jobs[w].data| && Interleaved(c0, Contents(s0), jobs, done)
    requires IsAt(s0.l, jobs[w].offset + done[w], k, inBlock) && inBlock + n <= s0.l.blockSize && k < |s0.bat|
    requires s1.l == s0.l && |s1.bat| == |s0.bat|
    requires Mixed(Contents(s0), Contents(s1), jobs[w].offset + done[w], jobs[w].data[done[w]..done[w] + n])
    requires landed ==>
               jobs[w].offset + done[w] + n <= |c0|
               && Contents(s1) == Splice(Contents(s0), jobs[w].offset + done[w], jobs[w].data[done[w]..done[w] + n])
    requires landed ==> s1.bat[k] != UNALLOCATED
    requires landed && s0.bat[k] != UNALLOCATED ==> s1.bat == s0.bat && s1.tail == s0.tail
    requires landed && s0.bat[k] == UNALLOCATED ==>
               && s0.tail / SECTOR < UNALLOCATED
               && s1.bat == s0.bat[k := s0.tail / SECTOR] && s1.tail == s0.tail + s0.l.Total()
    requires WrittenAllocated(s0.l, jobs, done, s0.bat)
    ensures Keeps(d0, s1, footer)
    ensures var done' := if landed then done[w := done[w] + n] else done;
            && Progress(jobs, done') && Interleaved(c0, Contents(s1), jobs, done')
            && WrittenAllocated(s1.l, jobs, done', s1.bat)
    ensures landed && AllocatedOnce(s0.l, jobs, d0.bat, d0.tail, s0.bat, s0.tail) ==>
              AllocatedOnce(s1.l, jobs, d0.bat, d0.tail, s1.bat, s1.tail)
  {
    hide Inv, Keeps, Flat, Interleaved, WrittenAllocated, AllocatedOnce, Mixed, DisjointJobs, IsAt;
    KeepsTransitive(d0, s0, s1, footer);
    KeepsCached(d0, s0, footer);
    KeepsCached(s0, s1, footer);
    ChunkInterleaves(c0, Contents(s0), Contents(s1), jobs, done, w, n, landed);
    AllocationKept(s0.l, jobs, done, s0.bat, s1.bat, k);
    if landed {
      ChunkAllocated(s0.l, jobs, done, s1.bat, w, n, k, inBlock);
      ChunkTouches(s0.l, jobs, w, jobs[w].offset + done[w], k, inBlock);
      OnceMore(s0.l, jobs, d0.bat, d0.tail, s0.bat, s0.tail, s1.bat, s1.tail, k);
    }
  }

  /** A chunk with nowhere to go shows that there was no room to begin with. */
  lemma NoRoomLeft(d0: Disk, s0: Disk, footer: seq<byte>, jobs: seq<Job>, w: nat, done: nat, k: nat, inBlock: nat)
    requires Keeps(d0, s0, footer) && s0.l.blockSize > 0 && w < |jobs| && done < |jobs[w].data| && k < |s0.bat|
    requires IsAt(s0.l, jobs[w].offset + done, k, inBlock)
    requires s0.bat[k] == UNALLOCATED && s0.tail / SECTOR >= UNALLOCATED
    ensures !(AllocatedOnce(s0.l, jobs, d0.bat, d0.tail, s0.bat, s0.tail) && Room(s0.l, jobs, d0.bat, d0.tail))
  {
    hide Keeps, AllocatedOnce, Room, IsAt, InSomeJob;
    KeepsCached(d0, s0, footer);
    ChunkTouches(s0.l, jobs, w, jobs[w].offset + done, k, inBlock);
    if AllocatedOnce(s0.l, jobs, d0.bat, d0.tail, s0.bat, s0.tail) && Room(s0.l, jobs, d0.bat, d0.tail) {
      RoomSuffices(s0.l, jobs, d0.bat, d0.tail, s0.bat, s0.tail, k);
    }
  }

  lemma AllocationKept(l: Layout, jobs: seq<Job>, done: seq<nat>, bat0: seq<nat>, bat1: seq<nat>, k: nat)
    requires l.blockSize > 0 && Progress(jobs, done) && WrittenAllocated(l, jobs, done, bat0)
    requires |bat0| == |bat1| && forall i :: 0 <= i < |bat0| && bat0[i] != UNALLOCATED ==> bat1[i] == bat0[i]
    ensures WrittenAllocated(l, jobs, done, bat1)
  {
  }

  lemma ChunkAllocated(l: Layout, jobs: seq<Job>, done: seq<nat>, bat: seq<nat>, w: nat, n: nat, k: nat, inBlock: nat)
    requires l.blockSize > 0 && Progress(jobs, done) && WrittenAllocated(l, jobs, done, bat)
    requires w < |jobs| && done[w] + n <= |jobs[w].data|
    requires IsAt(l, jobs[w].offset + done[w], k, inBlock) && inBlock + n <= l.blockSize
    requires k < |bat| && bat[k] != UNALLOCATED
    ensures Progress(jobs, done[w := done[w] + n])
    ensures WrittenAllocated(l, jobs, done[w := done[w] + n], bat)
  {
    var done' := done[w := done[w] + n];
    forall x, v: nat {:trigger jobs[x], BlockIndex(l, v)} | 0 <= x < |jobs|
      && jobs[x].offset <= v < jobs[x].offset + done'[x]
      ensures BlockIndex(l, v) < |bat| && bat[BlockIndex(l, v)] != UNALLOCATED
    {
      if x == w && v >= jobs[w].offset + done[w] {
        ChunkIsInBlock(l, jobs[w].offset + done[w], k, inBlock, n, v, BlockIndex(l, v), InBlock(l, v));
      }
    }
  }

  lemma ChunkTouches(l: Layout, jobs: seq<Job>, w: nat, cursor: nat, k: nat, inBlock: nat)
    requires l.blockSize > 0 && w < |jobs| && jobs[w].offset <= cursor < jobs[w].End() && IsAt(l, cursor, k, inBlock)
    ensures InSomeJob(l, jobs, k)
  {
    assert BlockIndex(l, cursor) == k;
  }

  lemma OnceMore(l: Layout, jobs: seq<Job>, bat0: seq<nat>, tail0: nat, bat1: seq<nat>, tail1: nat, bat2: seq<nat>,
    tail2: nat, k: nat)
    requires l.blockSize > 0 && k < |bat1| == |bat2|
    requires |bat0| == |bat1| && forall i :: 0 <= i < |bat0| && bat0[i] != UNALLOCATED ==> bat1[i] == bat0[i]
    requires bat1[k] != UNALLOCATED ==> bat2 == bat1 && tail2 == tail1
    requires bat1[k] == UNALLOCATED ==>
               InSomeJob(l, jobs, k) && tail1 / SECTOR < UNALLOCATED && bat2 == bat1[k := tail1 / SECTOR]
                 && tail2 == tail1 + l.Total()
    ensures AllocatedOnce(l, jobs, bat0, tail0, bat1, tail1) ==> AllocatedOnce(l, jobs, bat0, tail0, bat2, tail2)
  {
    if AllocatedOnce(l, jobs, bat0, tail0, bat1, tail1) && bat1[k] == UNALLOCATED {
      FreshGrows(bat0, bat1, k, tail1 / SECTOR);
    }
  }
}
