/** The backing device: a growable byte string whose operations may fail.

    What fails is decided by the environment, one verdict per operation: the operation
    runs, is refused after letting a prefix of its bytes land, or is the last thing that
    happens before the machine stops.  Every order of verdicts is a script, so a statement
    about an arbitrary environment is a statement about every fault and every crash point. */
module Devices {
  import opened Bytes

  datatype Fault = Fine | Refused(landed: nat) | Crash(landed: nat)

  class Environment {
    var script: seq<Fault>
    var alive: bool
    /** Operations that were not let through so far. */
    ghost var faults: nat

    constructor (script: seq<Fault>)
      ensures this.script == script && alive
    {
      this.script := script;
      alive := true;
      faults := 0;
    }

    /** Nothing will fail. */
    ghost predicate Calm()
      reads this
    {
      alive && forall f :: f in script ==> f.Fine?
    }

    /** What every operation keeps: faults only ever add up, and where nothing would fail,
        nothing has. */
    ghost predicate Since(faults0: nat, calm0: bool)
      reads this
    {
      faults0 <= faults && (calm0 ==> Calm() && faults == faults0)
    }

    /** The machine comes back up. */
    method Restart()
      modifies this`alive
      ensures alive
    {
      alive := true;
    }

    /** The verdict on the next operation; nothing runs once the machine has stopped. */
    method Next() returns (f: Fault)
      modifies this
      ensures Since(old(faults), old(Calm()))
      ensures f.Fine? ==> alive == old(alive)
      ensures !old(alive) ==> f == Refused(0) && !alive
      ensures f.Crash? ==> !alive
      ensures faults == old(faults) + if f.Fine? then 0 else 1
    {
      if !alive {
        f := Refused(0);
      } else if script == [] {
        f := Fine;
      } else {
        f := script[0];
        script := script[1..];
        alive := !f.Crash?;
      }
      faults := faults + if f.Fine? then 0 else 1;
    }
  }

  class Device {
    var bytes: seq<byte>
    const env: Environment
    /** The contents that the last completed flush put on stable storage. */
    ghost var durable: seq<byte>
    /** Every contents the device has had since it was opened. */
    ghost var seen: set<seq<byte>>

    constructor (env: Environment, bytes: seq<byte>)
      ensures this.env == env && this.bytes == bytes && seen == {bytes}
    {
      this.env := env;
      this.bytes := bytes;
      this.durable := bytes;
      this.seen := {bytes};
    }

    /** Read exactly `n` bytes, or fail. */
    method ReadAt(off: nat, n: nat) returns (ok: bool, data: seq<byte>)
      modifies env
      ensures ok ==> off + n <= |bytes| && data == bytes[off..off + n]
      ensures env.Since(old(env.faults), old(env.Calm()))
      ensures env.faults == old(env.faults) ==> (ok <==> off + n <= |bytes|)
    {
      var f := env.Next();
      ok := f.Fine? && off + n <= |bytes|;
      data := if ok then bytes[off..off + n] else [];
    }

    /** Read into a slice of a buffer. */
    method ReadInto(off: nat, buf: array<byte>, lo: nat, hi: nat) returns (ok: bool)
      requires lo <= hi <= buf.Length
      modifies env, buf
      ensures forall i :: 0 <= i < buf.Length && !(lo <= i < hi) ==> buf[i] == old(buf[i])
      ensures ok ==> off + (hi - lo) <= |bytes| && forall i :: lo <= i < hi ==> buf[i] == At(bytes, off + (i - lo))
      ensures env.Since(old(env.faults), old(env.Calm()))
      ensures env.faults == old(env.faults) ==> (ok <==> off + (hi - lo) <= |bytes|)
    {
      var data;
      ok, data := ReadAt(off, hi - lo);
      if ok {
        forall i | lo <= i < hi {
          buf[i] := data[i - lo];
        }
      }
    }

    /** Overwrite in place.  A write past the end is refused; a failed write may leave any
        prefix of its bytes, all of them included. */
    method WriteAt(off: nat, data: seq<byte>) returns (ok: bool, ghost landed: nat)
      modifies this`bytes, this`seen, env
      ensures seen == old(seen) + {bytes}
      ensures landed <= |data|
      ensures off + |data| <= |old(bytes)| ==> bytes == Splice(old(bytes), off, data[..landed])
      ensures off + |data| > |old(bytes)| ==> bytes == old(bytes) && !ok
      ensures ok ==> landed == |data|
      ensures env.Since(old(env.faults), old(env.Calm()))
      ensures env.faults == old(env.faults) ==> (ok <==> off + |data| <= |old(bytes)|)
      ensures !old(env.alive) ==> !ok && !env.alive && bytes == old(bytes)
      ensures env.faults >= old(env.faults) + if !ok && off + |data| <= |old(bytes)| then 1 else 0
    {
      var f := env.Next();
      ok := f.Fine? && off + |data| <= |bytes|;
      var n := if f.Fine? || |data| <= f.landed then |data| else f.landed;
      landed := n;
      if off + |data| <= |bytes| {
        bytes := Splice(bytes, off, data[..n]);
      }
      seen := seen + {bytes};
    }

    /** Overwrite four bytes, all or none of which land. */
    method WriteEntry(off: nat, data: seq<byte>) returns (ok: bool)
      requires |data| == 4
      modifies this`bytes, this`seen, env
      ensures seen == old(seen) + {bytes}
      ensures bytes == old(bytes) || (off + 4 <= |old(bytes)| && bytes == Splice(old(bytes), off, data))
      ensures ok ==> off + 4 <= |old(bytes)| && bytes == Splice(old(bytes), off, data)
      ensures env.Since(old(env.faults), old(env.Calm()))
      ensures env.faults == old(env.faults) ==> (ok <==> off + 4 <= |old(bytes)|)
      ensures !old(env.alive) ==> !ok && !env.alive && bytes == old(bytes)
    {
      var f := env.Next();
      ok := f.Fine? && off + 4 <= |bytes|;
      if off + 4 <= |bytes| && (f.Fine? || f.landed >= 4) {
        bytes := Splice(bytes, off, data);
      }
      seen := seen + {bytes};
    }

    /** Set the length, cutting or growing with zeros; a refusal changes nothing. */
    method SetLen(n: nat) returns (ok: bool)
      modifies this`bytes, this`seen, env
      ensures seen == old(seen) + {bytes}
      ensures ok && n >= |old(bytes)| ==> bytes == Grow(old(bytes), n)
      ensures ok && n < |old(bytes)| ==> bytes == old(bytes)[..n]
      ensures !ok ==> bytes == old(bytes)
      ensures env.Since(old(env.faults), old(env.Calm()))
      ensures env.faults == old(env.faults) ==> ok
      ensures !old(env.alive) ==> !ok && !env.alive
    {
      var f := env.Next();
      ok := f.Fine?;
      if ok {
        bytes := if n >= |bytes| then Grow(bytes, n) else bytes[..n];
      }
      seen := seen + {bytes};
    }

    method Flush() returns (ok: bool)
      modifies this`durable, env
      ensures durable == if ok then bytes else old(durable)
      ensures env.Since(old(env.faults), old(env.Calm()))
      ensures env.faults == old(env.faults) ==> ok
      ensures !old(env.alive) ==> !ok && !env.alive
    {
      var f := env.Next();
      ok := f.Fine?;
      if ok {
        durable := bytes;
      }
    }
  }
}
