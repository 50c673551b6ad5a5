/** Whether a BAT and the parent locators can be believed: one sort and one walk decide
    that no two blocks share a byte, one binary search decides each locator. */
module Acceptance {
  import opened Bytes
  import opened Format
  import opened Blocks
  import opened Disks
  import opened DynamicHeaders

  /** The allocated entries of a table, in table order. */
  function Named(t: seq<nat>): (r: seq<nat>)
    ensures forall e :: e in r <==> e in t && e != UNALLOCATED
  {
    if t == [] then []
    else
      var rest := Named(t[..|t| - 1]);
      assert t == t[..|t| - 1] + [t[|t| - 1]];
      if t[|t| - 1] == UNALLOCATED then rest else rest + [t[|t| - 1]]
  }

  /** No two entries of a list name blocks that share a byte. */
  ghost predicate AllApart(l: Layout, s: seq<nat>) {
    forall i, j {:trigger s[i], s[j]} :: 0 <= i < j < |s| ==> Apart(l, s[i], s[j])
  }

  predicate Sorted(s: seq<nat>) {
    forall i, j {:trigger s[i], s[j]} :: 0 <= i < j < |s| ==> s[i] <= s[j]
  }

  /** Every allocated block lies in `[lo, hi)`. */
  ghost predicate InRange(l: Layout, t: seq<nat>, lo: nat, hi: nat) {
    forall i {:trigger t[i]} :: 0 <= i < |t| && t[i] != UNALLOCATED ==> lo <= Home(t[i]) && Home(t[i]) + l.Total() <= hi
  }

  /** Walk the table: refuse the first entry out of range, keep the others. */
  method CollectAllocated(l: Layout, t: seq<nat>, lo: nat, hi: nat) returns (ok: bool, named: seq<nat>)
    ensures ok <==> InRange(l, t, lo, hi)
    ensures ok ==> named == Named(t)
  {
    named := [];
    for i := 0 to |t|
      invariant InRange(l, t[..i], lo, hi)
      invariant named == Named(t[..i])
    {
      var entry := t[i];
      assert t[..i + 1][..i] == t[..i];
      if entry != UNALLOCATED {
        if Home(entry) < lo { return false, []; }
        if Home(entry) + l.Total() > hi { return false, []; }
        named := named + [entry];
      }
    }
    assert t[..|t|] == t;
    ok := true;
  }

  /** `sort_unstable`. */
  method SortUnstable(s: seq<nat>) returns (r: seq<nat>)
    ensures Sorted(r) && multiset(r) == multiset(s)
  {
    r := [];
    for i := 0 to |s|
      invariant Sorted(r) && multiset(r) == multiset(s[..i])
    {
      r := Insert(r, s[i]);
      assert s[..i + 1] == s[..i] + [s[i]];
    }
    assert s[..|s|] == s;
  }

  method Insert(s: seq<nat>, x: nat) returns (r: seq<nat>)
    requires Sorted(s)
    ensures Sorted(r) && multiset(r) == multiset(s) + multiset{x}
  {
    var k := |s|;
    while k > 0 && s[k - 1] > x
      invariant 0 <= k <= |s|
      invariant forall j :: k <= j < |s| ==> s[j] > x
    {
      k := k - 1;
    }
    r := s[..k] + [x] + s[k..];
    InsertedSorted(s, k, x, r);
    assert s == s[..k] + s[k..];
  }

  lemma InsertedSorted(s: seq<nat>, k: nat, x: nat, r: seq<nat>)
    requires Sorted(s) && k <= |s| && r == s[..k] + [x] + s[k..]
    requires k > 0 ==> s[k - 1] <= x
    requires forall j :: k <= j < |s| ==> s[j] > x
    ensures Sorted(r)
  {
    forall i, j | 0 <= i < j < |r| ensures r[i] <= r[j] {
      var a := if i <= k then i else i - 1;
      var b := if j <= k then j else j - 1;
      assert i != k ==> r[i] == s[a];
      assert j != k ==> r[j] == s[b];
    }
  }

  /** `windows(2).any(..)`: some neighbours are closer than a whole block. */
  method NeighboursOverlap(l: Layout, s: seq<nat>) returns (any: bool)
    requires Sorted(s) && l.Total() > 0
    ensures any <==> !AllApart(l, s)
  {
    var i := 1;
    while i < |s|
      invariant 1 <= i && (|s| > 0 ==> i <= |s| && AllApart(l, s[..i]))
      invariant forall k :: 0 < k < i && k < |s| ==> Home(s[k - 1]) + l.Total() <= Home(s[k])
    {
      if Home(s[i]) < Home(s[i - 1]) + l.Total() {
        assert !Apart(l, s[i - 1], s[i]);
        return true;
      }
      NeighboursMakeAllApart(l, s, i);
      i := i + 1;
    }
    assert |s| > 0 ==> s[..|s|] == s;
    any := false;
  }

  /** In a sorted list, neighbours a whole block apart keep every pair apart. */
  lemma NeighboursMakeAllApart(l: Layout, s: seq<nat>, n: nat)
    requires Sorted(s) && n < |s|
    requires forall k :: 0 < k <= n ==> Home(s[k - 1]) + l.Total() <= Home(s[k])
    requires AllApart(l, s[..n])
    ensures AllApart(l, s[..n + 1])
  {
    forall i | 0 <= i < n ensures Apart(l, s[i], s[n]) {
      assert s[i] <= s[n - 1];
    }
  }

  // ---- The list that was sorted and the table it came from ----

  /** Pairwise disjointness survives any reordering. */
  lemma AllApartPermutes(l: Layout, a: seq<nat>, b: seq<nat>)
    requires l.Total() > 0 && multiset(a) == multiset(b) && AllApart(l, a)
    ensures AllApart(l, b)
  {
    forall i, j | 0 <= i < j < |b| ensures Apart(l, b[i], b[j]) {
      var m := multiset(a);
      assert b[i] in multiset(b) && b[j] in multiset(b);
      assert b[i] in m && b[j] in m;
      var p :| 0 <= p < |a| && a[p] == b[i];
      var q :| 0 <= q < |a| && a[q] == b[j];
      if b[i] == b[j] {
        TwoPositions(b, i, j);
        var c, d := TwiceMeansTwoPositions(a, b[i]);
      } else if p < q {
        assert Apart(l, a[p], a[q]);
      } else {
        assert Apart(l, a[q], a[p]);
      }
    }
  }

  lemma TwoPositions(s: seq<nat>, i: nat, j: nat)
    requires i < j < |s| && s[i] == s[j]
    ensures multiset(s)[s[i]] >= 2
  {
    assert s == s[..j] + [s[j]] + s[j + 1..];
    assert s[i] in multiset(s[..j]) by { assert s[..j][i] == s[i]; }
  }

  lemma {:induction false} TwiceMeansTwoPositions(s: seq<nat>, x: nat) returns (i: nat, j: nat)
    requires multiset(s)[x] >= 2
    ensures i < j < |s| && s[i] == s[j] == x
  {
    var n := |s| - 1;
    assert s == s[..n] + [s[n]];
    if s[n] == x {
      assert x in multiset(s[..n]);
      i :| 0 <= i < n && s[..n][i] == x;
      j := n;
    } else {
      i, j := TwiceMeansTwoPositions(s[..n], x);
    }
  }

  /** The table's disjointness is that of its list of allocated entries. */
  lemma {:induction false} NamedApart(l: Layout, t: seq<nat>)
    ensures AllApart(l, Named(t)) <==>
            forall i, j {:trigger t[i], t[j]} :: 0 <= i < j < |t| && t[i] != UNALLOCATED && t[j] != UNALLOCATED ==>
              Apart(l, t[i], t[j])
  {
    if t != [] {
      var n := |t| - 1;
      var rest := Named(t[..n]);
      NamedApart(l, t[..n]);
      if t[n] == UNALLOCATED {
        PairsExtend(l, t, n);
      } else {
        var s := rest + [t[n]];
        AllApartExtends(l, rest, t[n]);
        PairsExtend(l, t, n);
        assert (forall e :: e in rest ==> Apart(l, e, t[n])) <==>
               (forall i :: 0 <= i < n && t[i] != UNALLOCATED ==> Apart(l, t[i], t[n])) by {
          assert forall i :: 0 <= i < n ==> t[..n][i] == t[i];
        }
      }
    }
  }

  lemma AllApartExtends(l: Layout, s: seq<nat>, x: nat)
    ensures AllApart(l, s + [x]) <==> AllApart(l, s) && forall e :: e in s ==> Apart(l, e, x)
  {
    var r := s + [x];
    if AllApart(l, r) {
      forall i, j | 0 <= i < j < |s| ensures Apart(l, s[i], s[j]) {
        assert Apart(l, r[i], r[j]);
      }
      forall e | e in s ensures Apart(l, e, x) {
        var i :| 0 <= i < |s| && s[i] == e;
        assert Apart(l, r[i], r[|s|]);
      }
    }
  }

  lemma PairsExtend(l: Layout, t: seq<nat>, n: nat)
    requires n + 1 == |t|
    ensures (forall i, j {:trigger t[i], t[j]} ::
               0 <= i < j < |t| && t[i] != UNALLOCATED && t[j] != UNALLOCATED ==> Apart(l, t[i], t[j]))
       <==> (forall i, j {:trigger t[..n][i], t[..n][j]} ::
               0 <= i < j < n && t[..n][i] != UNALLOCATED && t[..n][j] != UNALLOCATED ==>
                 Apart(l, t[..n][i], t[..n][j]))
            && (t[n] != UNALLOCATED ==> forall i :: 0 <= i < n && t[i] != UNALLOCATED ==> Apart(l, t[i], t[n]))
  {
    assert forall i :: 0 <= i < n ==> t[..n][i] == t[i];
  }

  /** What open decides by sorting is exactly that no two blocks share a byte. */
  lemma SortedTestIsExact(l: Layout, t: seq<nat>, sorted: seq<nat>, lo: nat, hi: nat)
    requires l.Total() > 0 && multiset(sorted) == multiset(Named(t))
    ensures TableFits(l, t, lo, hi) <==> InRange(l, t, lo, hi) && AllApart(l, sorted)
  {
    NamedApart(l, t);
    if AllApart(l, sorted) {
      AllApartPermutes(l, sorted, Named(t));
    }
    if AllApart(l, Named(t)) {
      AllApartPermutes(l, Named(t), sorted);
    }
  }

  // ---- Parent locators ----

  /** The extents `[a, b)` and `[c, d)` share a byte. */
  predicate Meets(a: nat, b: nat, c: nat, d: nat) { a < d && c < b }

  predicate Within(x: nat, lo: nat, hi: nat) { lo <= x < hi }

  lemma MeetsMeansSharedByte(a: nat, b: nat, c: nat, d: nat)
    requires a < b && c < d
    ensures Meets(a, b, c, d) <==> exists x :: Within(x, a, b) && Within(x, c, d)
  {
    if Meets(a, b, c, d) {
      var x := if a < c then c else a;
      assert Within(x, a, b) && Within(x, c, d);
    }
  }

  /** `partition_point`: a binary search for the first block starting at or past `end`. */
  method PartitionPoint(s: seq<nat>, end: nat) returns (k: nat)
    requires Sorted(s)
    ensures k <= |s|
    ensures forall i :: 0 <= i < k ==> Home(s[i]) < end
    ensures forall i :: k <= i < |s| ==> Home(s[i]) >= end
  {
    var lo, hi := 0, |s|;
    while lo < hi
      invariant lo <= hi <= |s|
      invariant forall i :: 0 <= i < lo ==> Home(s[i]) < end
      invariant forall i :: hi <= i < |s| ==> Home(s[i]) >= end
    {
      var mid := (lo + hi) / 2;
      if Home(s[mid]) < end {
        lo := mid + 1;
      } else {
        hi := mid;
      }
    }
    k := lo;
  }

  /** Looking at the one block before the partition point is exact: that block reaches
      furthest of all that start before `end`. */
  method MeetsSomeBlock(l: Layout, s: seq<nat>, start: nat, end: nat) returns (any: bool)
    requires Sorted(s) && AllApart(l, s) && l.Total() > 0
    ensures any <==> exists e :: e in s && Meets(start, end, Home(e), Home(e) + l.Total())
  {
    var k := PartitionPoint(s, end);
    any := k > 0 && Home(s[k - 1]) + l.Total() > start;
    if any {
      assert s[k - 1] in s && Meets(start, end, Home(s[k - 1]), Home(s[k - 1]) + l.Total());
    }
    if e :| e in s && Meets(start, end, Home(e), Home(e) + l.Total()) {
      var i :| 0 <= i < |s| && s[i] == e;
      assert i <= k - 1;
      if i < k - 1 {
        assert Apart(l, s[i], s[k - 1]);
      }
    }
  }

  predicate Skipped(loc: ParentLocator) {
    loc.platformCode == Zeros(4) || loc.dataLength == 0
  }

  /** A locator's payload shares no byte with the mirror, the header, the BAT, a block or
      anything past the data area. */
  ghost predicate LocatorClear(l: Layout, headerAt: nat, t: seq<nat>, dataEnd: nat, loc: ParentLocator) {
    var start, end := loc.dataOffset, loc.dataOffset + loc.dataLength;
    || Skipped(loc)
    || (&& end <= dataEnd
        && !Meets(start, end, 0, FOOTER_SIZE)
        && !Meets(start, end, headerAt, headerAt + HEADER_SIZE)
        && !Meets(start, end, l.tableOffset, l.TableEnd())
        && forall e :: e in t && e != UNALLOCATED ==> !Meets(start, end, Home(e), Home(e) + l.Total()))
  }

  method CheckLocators(l: Layout, headerAt: nat, ghost t: seq<nat>, sorted: seq<nat>, dataEnd: nat,
    locators: seq<ParentLocator>)
    returns (ok: bool)
    requires Sorted(sorted) && AllApart(l, sorted) && l.Total() > 0 && multiset(sorted) == multiset(Named(t))
    requires dataEnd < U64_LIMIT
    ensures ok <==> forall i :: 0 <= i < |locators| ==> LocatorClear(l, headerAt, t, dataEnd, locators[i])
  {
    SameMembers(sorted, Named(t));
    for i := 0 to |locators|
      invariant forall k :: 0 <= k < i ==> LocatorClear(l, headerAt, t, dataEnd, locators[k])
    {
      var loc := locators[i];
      if !Skipped(loc) {
        var start, end := loc.dataOffset, loc.dataOffset + loc.dataLength;
        if end >= U64_LIMIT { return false; }
        if end > dataEnd
          || Meets(start, end, 0, FOOTER_SIZE)
          || Meets(start, end, headerAt, headerAt + HEADER_SIZE)
          || Meets(start, end, l.tableOffset, l.TableEnd())
        {
          return false;
        }
        var any := MeetsSomeBlock(l, sorted, start, end);
        if any { return false; }
      }
    }
    ok := true;
  }

  lemma SameMembers(a: seq<nat>, b: seq<nat>)
    requires multiset(a) == multiset(b)
    ensures forall e :: e in a <==> e in b
  {
    forall e ensures e in a <==> e in b {
      assert e in multiset(a) <==> e in multiset(b);
    }
  }

  // ---- The tail ----

  /** End of the block reaching furthest, or 0. */
  ghost function MaxEnd(l: Layout, t: seq<nat>): (r: nat)
    ensures forall i {:trigger t[i]} :: 0 <= i < |t| && t[i] != UNALLOCATED ==> Home(t[i]) + l.Total() <= r
    ensures r == 0 || exists i :: 0 <= i < |t| && t[i] != UNALLOCATED && r == Home(t[i]) + l.Total()
  {
    if t == [] then 0
    else
      var n := |t| - 1;
      var rest := MaxEnd(l, t[..n]);
      assert forall i :: 0 <= i < n ==> t[..n][i] == t[i];
      if t[n] != UNALLOCATED && Home(t[n]) + l.Total() > rest then Home(t[n]) + l.Total() else rest
  }

  /** The last block of the sorted list reaches furthest. */
  lemma LastReachesFurthest(l: Layout, t: seq<nat>, sorted: seq<nat>)
    requires Sorted(sorted) && multiset(sorted) == multiset(Named(t)) && l.Total() > 0
    ensures MaxEnd(l, t) == if sorted == [] then 0 else Home(sorted[|sorted| - 1]) + l.Total()
  {
    SameMembers(sorted, Named(t));
    if sorted == [] {
      forall i | 0 <= i < |t| ensures t[i] == UNALLOCATED {
        assert t[i] in Named(t) || t[i] == UNALLOCATED;
      }
    } else {
      var last := sorted[|sorted| - 1];
      assert last in Named(t);
      var i :| 0 <= i < |t| && t[i] == last;
      assert Home(last) + l.Total() <= MaxEnd(l, t);
      var j :| 0 <= j < |t| && t[j] != UNALLOCATED && MaxEnd(l, t) == Home(t[j]) + l.Total();
      assert t[j] in Named(t);
      var k :| 0 <= k < |sorted| && sorted[k] == t[j];
    }
  }
}
