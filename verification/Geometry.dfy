/** CHS geometry: the specification's "Disk Geometry" ladder, and the rounding that makes
    a created image's size agree with its geometry. */
module Geometry {
  import opened Bytes
  import opened Format

  const MAX_CYLINDERS: nat := 65535
  const MAX_HEADS: nat := 16
  const MAX_SPT: nat := 255
  const MAX_ADDRESSABLE_SECTORS: nat := 65535 * 16 * 255
  const LADDER_CEILING_SECTORS: nat := 65535 * 16 * 63
  const SPT_FIRST: nat := 17
  const SPT_SECOND: nat := 31
  const SPT_THIRD: nat := 63
  const MIN_HEADS: nat := 4
  const CYLINDERS_PER_HEAD_LIMIT: nat := 1024

  datatype Chs = Chs(cylinders: nat, heads: nat, spt: nat) {
    function Sectors(): nat { cylinders * heads * spt }
  }

  /** Heads and sectors per track of a disk of `t` sectors: the rung of the ladder. */
  function Rung(t: nat): (nat, nat)
    requires t <= MAX_ADDRESSABLE_SECTORS
  {
    if t >= LADDER_CEILING_SECTORS then (16, 255)
    else
      var cth := t / 17;
      var heads := if (cth + 1023) / 1024 < 4 then 4 else (cth + 1023) / 1024;
      if cth < heads * 1024 && heads <= 16 then (heads, 17)
      else if t / 31 < 16384 then (16, 31)
      else (16, 63)
  }

  /** Sectors in one cylinder of the rung chosen for `t`. */
  function Unit(t: nat): nat
    requires t <= MAX_ADDRESSABLE_SECTORS
  {
    Rung(t).0 * Rung(t).1
  }

  function Capped(t: nat): nat {
    if t <= MAX_ADDRESSABLE_SECTORS then t else MAX_ADDRESSABLE_SECTORS
  }

  /** Sectors that the geometry computed for `t` sectors describes. */
  function Described(t: nat): nat
  {
    var u := Unit(Capped(t));
    if u == 0 then 0 else Capped(t) / u * u
  }

  /** The fewest heads, four at least, that keep the cylinders of `t` sectors at 17 a track from
      passing 1,024 a head. */
  ghost predicate FewestHeads(t: nat, heads: nat) {
    && heads >= 4 && t / 17 <= heads * 1024
    && (heads > 4 ==> (heads - 1) * 1024 < t / 17)
  }

  lemma FewestHeadsUnique(t: nat, a: nat, b: nat)
    requires FewestHeads(t, a) && FewestHeads(t, b)
    ensures a == b
  {
  }

  /** What the specification's ladder asks of the geometry of `t` sectors, rung by rung. */
  ghost predicate OnLadder(t: nat, g: Chs) {
    && g.spt in {17, 31, 63, 255}
    && (g.spt == 17 <==>
          t < 66059280 && exists heads: nat :: FewestHeads(t, heads) && heads <= 16 && t / 17 < heads * 1024)
    && (g.spt == 17 ==> FewestHeads(t, g.heads))
    && (g.spt != 17 ==> g.heads == 16)
    && (g.spt == 31 ==> t / 31 < 16 * 1024)
    && (g.spt == 63 ==> t / 31 >= 16 * 1024)
    && (g.spt == 255 <==> t >= 66059280)
    && g.cylinders == t / (g.heads * g.spt)
  }

  /** The geometry of `t` sectors. */
  function Ladder(t: nat): Chs
    requires t <= MAX_ADDRESSABLE_SECTORS
  {
    var (heads, spt) := Rung(t);
    if heads == 0 || spt == 0 then Chs(0, heads, spt) else Chs(t / spt / heads, heads, spt)
  }

  /** Climb the ladder: the first rung whose cylinders fit, then clamp each field to its width. */
  method ChsForSize(sizeBytes: nat) returns (g: Chs)
    ensures g == Ladder(Capped(sizeBytes / SECTOR))
    ensures OnLadder(if sizeBytes / SECTOR < 267382800 then sizeBytes / SECTOR else 267382800, g)
    ensures g.Sectors() == Described(sizeBytes / SECTOR)
    ensures g.cylinders <= MAX_CYLINDERS && 4 <= g.heads <= 16 && g.spt in {17, 31, 63, 255}
    ensures g.Sectors() <= sizeBytes / SECTOR && g.Sectors() <= MAX_ADDRESSABLE_SECTORS
  {
    var total := if sizeBytes / SECTOR < MAX_ADDRESSABLE_SECTORS then sizeBytes / SECTOR else MAX_ADDRESSABLE_SECTORS;
    var cylindersTimesHeads, heads, spt;
    if total >= LADDER_CEILING_SECTORS {
      spt := MAX_SPT;
      heads := MAX_HEADS;
      cylindersTimesHeads := total / spt;
    } else {
      spt := SPT_FIRST;
      var cth := total / spt;
      heads := (cth + CYLINDERS_PER_HEAD_LIMIT - 1) / CYLINDERS_PER_HEAD_LIMIT;
      if heads < MIN_HEADS {
        heads := MIN_HEADS;
      }
      if cth >= heads * CYLINDERS_PER_HEAD_LIMIT || heads > MAX_HEADS {
        spt := SPT_SECOND;
        heads := MAX_HEADS;
        cth := total / spt;
      }
      if cth >= heads * CYLINDERS_PER_HEAD_LIMIT {
        spt := SPT_THIRD;
        heads := MAX_HEADS;
        cth := total / spt;
      }
      cylindersTimesHeads := cth;
    }
    assert (heads, spt) == Rung(total) && cylindersTimesHeads == total / spt;
    RungBounds(total);
    CylindersBound(total);
    var cylinders := if heads == 0 then 0 else cylindersTimesHeads / heads;
    g := Chs(
      if cylinders < 65535 then cylinders else 65535,
      if heads < 255 then heads else 255,
      if spt < 255 then spt else 255);
    assert g == Chs(total / Rung(total).1 / Rung(total).0, Rung(total).0, Rung(total).1);
    GeometryOfRung(total);
    LadderIsClimbed(total);
  }

  /** The first rung whose cylinders fit is the one that the ladder asks for. */
  lemma LadderIsClimbed(t: nat)
    requires t <= MAX_ADDRESSABLE_SECTORS
    ensures OnLadder(t, Ladder(t))
  {
    RungBounds(t);
    var (heads, spt) := Rung(t);
    TwoDivisions(t, spt, heads);
    Commute(spt, heads);
    var fewest := if (t / 17 + 1023) / 1024 < 4 then 4 else (t / 17 + 1023) / 1024;
    assert FewestHeads(t, fewest);
    if h: nat :| FewestHeads(t, h) && h <= 16 && t / 17 < h * 1024 {
      FewestHeadsUnique(t, h, fewest);
    }
  }

  /** Geometries that another implementation wrote for sizes they describe exactly, and some
      worked out from the specification's text. */
  lemma IndependentGeometries()
    ensures Ladder(1079296 / 512) == Chs(31, 4, 17) && Ladder(67125248 / 512) == Chs(964, 8, 17)
    ensures Ladder(71364096 / 512) == Chs(911, 9, 17) && Ladder(132126720 / 512) == Chs(1012, 15, 17)
    ensures Ladder(167862272 / 512) == Chs(661, 16, 31) && Ladder(537255936 / 512) == Chs(1041, 16, 63)
    ensures Ladder(33286127616 / 512) == Chs(64496, 16, 63) && Ladder(33822351360 / 512) == Chs(16191, 16, 255)
    ensures Ladder(136899993600 / 512) == Chs(65535, 16, 255)
    ensures Ladder(139264) == Chs(280, 16, 31) && Ladder(507904) == Chs(503, 16, 63)
    ensures Ladder(66059279) == Chs(65534, 16, 63) && Ladder(66059280) == Chs(16191, 16, 255)
  {
  }

  lemma Commute(a: nat, b: nat)
    ensures a * b == b * a
  {
  }

  /** Nothing else does: the geometry of `t` sectors is what the ladder asks for, and that alone. */
  lemma LadderIsUnique(t: nat, g: Chs)
    requires t <= MAX_ADDRESSABLE_SECTORS && OnLadder(t, g)
    ensures g == Ladder(t)
  {
    LadderIsClimbed(t);
    if g.spt == 17 && Ladder(t).spt == 17 {
      FewestHeadsUnique(t, g.heads, Ladder(t).heads);
    }
  }

  /** Two truncating divisions make one, so the geometry is the largest
      number of whole cylinders that fits. */
  lemma GeometryOfRung(t: nat)
    requires t <= MAX_ADDRESSABLE_SECTORS
    ensures Rung(t).1 > 0 && Rung(t).0 > 0
    ensures Chs(t / Rung(t).1 / Rung(t).0, Rung(t).0, Rung(t).1).Sectors() == Described(t) <= t
  {
    RungBounds(t);
    var (h, s) := Rung(t);
    TwoDivisions(t, s, h);
    FloorBelow(t, s * h);
    Regroup(t / s / h, h, s);
  }

  lemma Regroup(a: nat, b: nat, c: nat)
    ensures a * b * c == a * (c * b)
  {
  }

  lemma RungBounds(t: nat)
    requires t <= MAX_ADDRESSABLE_SECTORS
    ensures 4 <= Rung(t).0 <= 16 && Rung(t).1 in {17, 31, 63, 255}
    ensures 68 <= Unit(t) <= 4080
  {
    var h := Rung(t).0;
    assert Unit(t) == h * 17 || Unit(t) == 16 * 31 || Unit(t) == 16 * 63 || Unit(t) == 16 * 255;
  }

  lemma TwoDivisions(t: nat, s: nat, h: nat)
    requires s > 0 && h > 0
    ensures s * h > 0 && t / s / h == t / (s * h)
  {
    var q, r := t / s / h, t / s % h;
    MulAtLeast(s, h);
    Remainder(t, s);
    Remainder(t / s, h);
    ExpandLeft(q, h, r, s);
    MulMonotone(r, h - 1, s);
    Distribute(h, 1, s);
    DivMod(t, s * h, q, s * r + t % s);
  }

  lemma ExpandLeft(q: nat, h: nat, r: nat, s: nat)
    ensures (q * h + r) * s == q * (s * h) + s * r
  {
    Expand(s, h, q, r);
  }

  /** Rounding down to a multiple stays below and loses less than one unit. */
  lemma FloorBelow(t: nat, u: nat)
    requires u > 0
    ensures t / u * u == t - t % u && t - u < t / u * u <= t
  {
  }

  lemma CylindersBound(t: nat)
    requires t <= MAX_ADDRESSABLE_SECTORS
    ensures t / Rung(t).1 / Rung(t).0 <= 65535
  {
    var (h, s) := Rung(t);
    RungBounds(t);
    var cth := t / s;
    assert cth <= 65535 * 16;
    if s == 17 {
      assert cth < h * 1024;
      FloorBelow(cth, h);
      if cth / h > 1024 {
        MulMonotone(1025, cth / h, h);
      }
    }
  }

  // ---- Rounding a request up to a size its geometry describes ----

  /** `t` is where the search for a geometry covering `w` sectors stops. */
  ghost predicate FirstCover(w: nat, t: nat) {
    w <= t <= MAX_ADDRESSABLE_SECTORS && Described(t) >= w &&
    forall y :: w <= y < t ==> Described(y) < w
  }

  /** The requests for which the search stops on a rung edge, at a size whose own
      geometry describes fewer sectors. */
  predicate InRungGap(w: nat) {
    || 69565 <= w <= 69615   || 86956 <= w <= 87006   || 104347 <= w <= 104363
    || 121738 <= w <= 121856 || 139129 <= w <= 139230 || 156520 <= w <= 156570
    || 191302 <= w <= 191456 || 208693 <= w <= 208845 || 226084 <= w <= 226176
    || 243475 <= w <= 243536 || 260866 <= w <= 261120
  }

  ghost function Stop(w: nat, y: nat): nat
    decreases MAX_ADDRESSABLE_SECTORS - y
  {
    if y >= MAX_ADDRESSABLE_SECTORS || Described(y) >= w then y else Stop(w, y + 1)
  }

  /** The size that a request is rounded to. */
  ghost function ExactSize(sizeBytes: nat): nat {
    var w := sizeBytes / SECTOR;
    if w > MAX_ADDRESSABLE_SECTORS then sizeBytes else Described(Stop(w, w)) * SECTOR
  }

  lemma {:induction false} StopIsFirstCover(w: nat, y: nat)
    requires w <= y <= MAX_ADDRESSABLE_SECTORS
    requires forall z :: w <= z < y ==> Described(z) < w
    ensures FirstCover(w, Stop(w, y))
    decreases MAX_ADDRESSABLE_SECTORS - y
  {
    if Described(y) < w {
      CeilingCovers(w, y);
      StopIsFirstCover(w, y + 1);
    }
  }

  method SizeWithExactGeometry(sizeBytes: nat) returns (r: nat)
    ensures r == ExactSize(sizeBytes)
    ensures sizeBytes / SECTOR > MAX_ADDRESSABLE_SECTORS ==> r == sizeBytes
    ensures sizeBytes / SECTOR <= MAX_ADDRESSABLE_SECTORS ==>
              r % SECTOR == 0 && sizeBytes / SECTOR <= r / SECTOR < sizeBytes / SECTOR + 4080
              && r / SECTOR <= MAX_ADDRESSABLE_SECTORS
    ensures Described(r / SECTOR) == r / SECTOR <==>
            sizeBytes / SECTOR <= MAX_ADDRESSABLE_SECTORS && !InRungGap(sizeBytes / SECTOR)
  {
    hide OnLadder, Ladder, Rung, InRungGap;
    var wanted := sizeBytes / SECTOR;
    var sectors := wanted;
    while sectors <= MAX_ADDRESSABLE_SECTORS
      invariant wanted <= sectors
      invariant wanted <= MAX_ADDRESSABLE_SECTORS ==> sectors <= MAX_ADDRESSABLE_SECTORS
      invariant forall y :: wanted <= y < sectors ==> Described(y) < wanted
      decreases MAX_ADDRESSABLE_SECTORS + 1 - sectors
    {
      var chs := ChsForSize(sectors * SECTOR);
      var covered := chs.Sectors();
      if covered >= wanted {
        assert FirstCover(wanted, sectors);
        StopIsFirstCover(wanted, wanted);
        FirstCoverUnique(wanted, sectors, Stop(wanted, wanted));
        SearchIsShort(wanted, sectors);
        ExactUnlessGap(wanted, sectors);
        return covered * SECTOR;
      }
      CeilingCovers(wanted, sectors);
      sectors := sectors + 1;
    }
    return sizeBytes;
  }

  lemma DescribedBounds(t: nat)
    requires t <= MAX_ADDRESSABLE_SECTORS
    ensures t - 4080 < Described(t) <= t
  {
    RungBounds(t);
    FloorBelow(t, Unit(t));
  }

  /** The ceiling itself is described exactly, so no search runs past it. */
  lemma CeilingCovers(w: nat, t: nat)
    requires w <= t <= MAX_ADDRESSABLE_SECTORS && Described(t) < w
    ensures t < MAX_ADDRESSABLE_SECTORS
  {
    assert Described(MAX_ADDRESSABLE_SECTORS) == MAX_ADDRESSABLE_SECTORS;
  }

  lemma SearchIsShort(w: nat, t: nat)
    requires FirstCover(w, t)
    ensures t < w + 4080 && w <= Described(t) < w + 4080
  {
    DescribedBounds(t);
    if t >= w + 4080 {
      DescribedBounds(w + 4079);
    }
  }

  lemma FirstCoverUnique(w: nat, s: nat, t: nat)
    requires FirstCover(w, s) && FirstCover(w, t)
    ensures s == t
  {
  }

  /** The recomputed geometry agrees exactly when the search stopped on a size that is
      its own geometry: otherwise minimality of the stop makes it disagree. */
  lemma ExactIffStopDescribed(w: nat, t: nat)
    requires FirstCover(w, t)
    ensures Described(Described(t)) == Described(t) <==> Described(t) == t
  {
    DescribedBounds(t);
  }

  lemma AtMultiple(y: nat, u: nat, q: nat)
    requires y <= MAX_ADDRESSABLE_SECTORS && u > 0 && Unit(y) == u && q * u <= y < q * u + u
    ensures Described(y) == q * u
  {
    DivMod(y, u, q, y - q * u);
  }

  /** Between two multiples of one rung's unit the search stops at the upper one. */
  lemma SameRung(w: nat, u: nat, q: nat)
    requires u > 0 && w <= q * u < w + u && q * u <= MAX_ADDRESSABLE_SECTORS && 1 <= q
    requires forall y :: w <= y <= q * u ==> Unit(y) == u
    ensures FirstCover(w, q * u) && Described(q * u) == q * u
  {
    AtMultiple(q * u, u, q);
    forall y | w <= y < q * u ensures Described(y) < w {
      Distribute(q, 1, u);
      AtMultiple(y, u, q - 1);
    }
  }

  /** On `[lo, hi)` the geometry describes `m` sectors. */
  ghost predicate DescribedOn(lo: nat, hi: nat, m: nat) {
    forall y {:trigger Described(y)} :: lo <= y < hi ==> Described(y) == m
  }

  /** Where one unit rules, and up to the next multiple of it, the geometry stands still. */
  lemma UnitStands(lo: nat, hi: nat, u: nat, q: nat, m: nat)
    requires u > 0 && m == q * u && m <= lo && hi <= m + u && hi <= MAX_ADDRESSABLE_SECTORS + 1
    requires forall y {:trigger Unit(y)} :: lo <= y < hi ==> Unit(y) == u
    ensures DescribedOn(lo, hi, m)
  {
    forall y | lo <= y < hi ensures Described(y) == m {
      AtMultiple(y, u, q);
    }
  }

  /** Around the edge `b` of a 17-sector rung the geometry stands at `a` below it, at `e`
      on the next 17 sectors, at `m` past them, and is exact again at `n`. */
  lemma EdgeSteps(w: nat, t: nat, a: nat, b: nat, e: nat, m: nat, n: nat)
    requires FirstCover(w, t) && a < w <= b + 16
    requires DescribedOn(a, b, a) && DescribedOn(b, b + 17, e) && DescribedOn(b + 17, n, m)
    requires e < b && m < b + 17 < n <= MAX_ADDRESSABLE_SECTORS && Described(n) == n
    ensures Described(t) == t <==> w > e && w > m
  {
    if w > e && w > m {
      assert FirstCover(w, n);
      FirstCoverUnique(w, n, t);
    } else {
      assert Described(b) == e && Described(b + 17) == m;
      assert b <= t <= b + 17;
    }
  }

  /** Around the edge `b = 1024 * u` of a 17-sector rung: one unit below it the geometry
      is `b - u`, on the next 17 sectors the ladder falls to 496-sector cylinders, and
      past them it runs in units of `v`.  `e` and `k` count the units reached there. */
  lemma RungEdge(w: nat, t: nat, b: nat, u: nat, v: nat, e: nat, k: nat)
    requires FirstCover(w, t)
    requires u > 0 && b == 1024 * u && b - u < w <= b + 16
    requires e * 496 < b && b + 16 < e * 496 + 496
    requires v > 0 && k * v < b + 17 < k * v + v <= MAX_ADDRESSABLE_SECTORS
    requires forall y {:trigger Unit(y)} :: b - u <= y < b ==> Unit(y) == u
    requires forall y {:trigger Unit(y)} :: b <= y <= b + 16 ==> Unit(y) == 496
    requires forall y {:trigger Unit(y)} :: b + 17 <= y <= k * v + v ==> Unit(y) == v
    ensures Described(t) == t <==> w > e * 496 && w > k * v
  {
    var m, n := k * v, k * v + v;
    UnitStands(b - u, b, u, 1023, b - u);
    UnitStands(b, b + 17, 496, e, e * 496);
    UnitStands(b + 17, n, v, k, m);
    Distribute(k + 1, 1, v);
    AtMultiple(n, v, k + 1);
    EdgeSteps(w, t, b - u, b, e * 496, m, n);
  }

  lemma ExactUnlessGap(w: nat, t: nat)
    requires FirstCover(w, t)
    ensures Described(Described(t)) == Described(t) <==> !InRungGap(w)
  {
    ExactIffStopDescribed(w, t);
    if w <= 69632 + 16 {
      ExactFirstRung(w, t);
    } else if w <= 174080 + 17 {
      ExactLowRungs(w, t);
    } else if w <= 278544 {
      ExactHighRungs(w, t);
    } else {
      ExactWideRungs(w, t);
    }
  }

  lemma StopsAt(w: nat, t: nat, u: nat, q: nat)
    requires FirstCover(w, t)
    requires u > 0 && w <= q * u < w + u && q * u <= MAX_ADDRESSABLE_SECTORS && 1 <= q
    requires forall y {:trigger Unit(y)} :: w <= y <= q * u ==> Unit(y) == u
    ensures Described(t) == t
  {
    SameRung(w, u, q);
    FirstCoverUnique(w, q * u, t);
  }

  lemma ExactFirstRung(w: nat, t: nat)
    requires FirstCover(w, t) && w <= 69632 + 16
    ensures Described(t) == t <==> !InRungGap(w)
  {
    if w == 0 {
      assert Described(0) == 0;
    } else if w <= 69564 {
      StopsAt(w, t, 68, (w + 67) / 68);
    } else {
      RungEdge(w, t, 69632, 68, 85, 140, 819);
    }
  }

  lemma UnitOnRung(h: nat, y: nat)
    requires 5 <= h <= 16 && 17408 * (h - 1) + 17 <= y < 17408 * h
    ensures Unit(y) == 17 * h
  {
    assert (y / 17 + 1023) / 1024 == h;
  }

  lemma UnitOnEdge(h: nat, y: nat)
    requires 4 <= h <= 16 && 17408 * h <= y <= 17408 * h + 16
    ensures Unit(y) == 496
  {
    assert y / 17 == 1024 * h;
  }

  /** The rung of `h` heads, 17 sectors a track, and the edge `b` above it: below the
      last cylinder `u` the search is exact, above it only past `gap`. */
  lemma RungAndEdge(w: nat, t: nat, h: nat, u: nat, b: nat, e: nat, k: nat, gap: nat)
    requires FirstCover(w, t)
    requires 5 <= h <= 15 && u == 17 * h && b == 1024 * u && b - 17391 <= w <= b + 16
    requires e * 496 < b && b + 16 < e * 496 + 496
    requires k * (u + 17) < b + 17 < k * (u + 17) + u + 17
    requires gap == if e * 496 < k * (u + 17) then k * (u + 17) else e * 496
    ensures Described(t) == t <==> w <= b - u || w > gap
  {
    forall y | b - 17391 <= y < b ensures Unit(y) == u {
      UnitOnRung(h, y);
    }
    if w <= b - u {
      StopsInside(w, t, u, b);
    } else {
      forall y | b <= y <= b + 16 ensures Unit(y) == 496 {
        UnitOnEdge(h, y);
      }
      forall y | b + 17 <= y < b + 17408 ensures Unit(y) == u + 17 {
        UnitOnRung(h + 1, y);
      }
      RungEdge(w, t, b, u, u + 17, e, k);
    }
  }

  lemma StopsInside(w: nat, t: nat, u: nat, b: nat)
    requires FirstCover(w, t)
    requires 0 < u && b == 1024 * u <= MAX_ADDRESSABLE_SECTORS && 0 < w <= b - u
    requires forall y {:trigger Unit(y)} :: w <= y < b ==> Unit(y) == u
    ensures Described(t) == t
  {
    var q := (w + u - 1) / u;
    FloorBelow(w + u - 1, u);
    if q > 1023 {
      MulMonotone(1024, q, u);
    } else {
      MulMonotone(q, 1023, u);
    }
    if q > 0 {
      StopsAt(w, t, u, q);
    }
  }

  lemma ExactLowRungs(w: nat, t: nat)
    requires FirstCover(w, t) && 69632 + 16 < w <= 174080 + 17
    ensures Described(t) == t <==> !InRungGap(w)
  {
    if w <= 87056 {
      RungAndEdge(w, t, 5, 85, 87040, 175, 853, 87006);
    } else if w <= 104464 {
      RungAndEdge(w, t, 6, 102, 104448, 210, 877, 104363);
    } else if w <= 121872 {
      RungAndEdge(w, t, 7, 119, 121856, 245, 896, 121856);
    } else if w <= 139280 {
      RungAndEdge(w, t, 8, 136, 139264, 280, 910, 139230);
    } else if w <= 156688 {
      RungAndEdge(w, t, 9, 153, 156672, 315, 921, 156570);
    } else {
      TenthEdge(w, t);
    }
  }

  /** The one edge without a gap: its last 496-sector cylinder ends on the edge. */
  lemma TenthEdge(w: nat, t: nat)
    requires FirstCover(w, t) && 156672 + 17 <= w <= 174097
    ensures Described(t) == t
  {
    forall y | 156672 + 17 <= y < 174080 ensures Unit(y) == 170 {
      UnitOnRung(10, y);
    }
    if w <= 173910 {
      StopsInside(w, t, 170, 174080);
    } else {
      StopsOnEdge(w, t);
    }
  }

  lemma StopsOnEdge(w: nat, t: nat)
    requires FirstCover(w, t) && 173910 < w <= 174097
    ensures Described(t) == t
  {
    forall y | w <= y < 174080 ensures Described(y) == 173910 {
      UnitOnRung(10, y);
      AtMultiple(y, 170, 1023);
    }
    forall y | 174080 <= y < 174096 ensures Described(y) == 173600 {
      UnitOnEdge(10, y);
      AtMultiple(y, 496, 350);
    }
    UnitOnEdge(10, 174096);
    UnitOnRung(11, 174097);
    AtMultiple(174096, 496, 351);
    AtMultiple(174097, 187, 931);
    var x := if w <= 174096 then 174096 else 174097;
    assert FirstCover(w, x);
    FirstCoverUnique(w, x, t);
  }

  lemma ExactHighRungs(w: nat, t: nat)
    requires FirstCover(w, t) && 174080 + 17 < w <= 278544
    ensures Described(t) == t <==> !InRungGap(w)
  {
    if w <= 191504 {
      RungAndEdge(w, t, 11, 187, 191488, 386, 938, 191456);
    } else if w <= 208912 {
      RungAndEdge(w, t, 12, 204, 208896, 421, 945, 208845);
    } else if w <= 226320 {
      RungAndEdge(w, t, 13, 221, 226304, 456, 950, 226176);
    } else if w <= 243728 {
      RungAndEdge(w, t, 14, 238, 243712, 491, 955, 243536);
    } else if w <= 261136 {
      RungAndEdge(w, t, 15, 255, 261120, 526, 960, 261120);
    } else {
      ExactSixteenHeads(w, t);
    }
  }

  lemma ExactSixteenHeads(w: nat, t: nat)
    requires FirstCover(w, t) && 261136 < w <= 278544
    ensures Described(t) == t
  {
    forall y | 261137 <= y < 278528 ensures Unit(y) == 272 {
      UnitOnRung(16, y);
    }
    if w <= 278256 {
      StopsAt(w, t, 272, (w + 271) / 272);
    } else {
      LastEdge(w, t, 278528, 272, 1023, 496, 561);
    }
  }

  /** An edge past which one unit `v` rules: `k` of them lie below what is wanted. */
  lemma LastEdge(w: nat, t: nat, b: nat, u: nat, q: nat, v: nat, k: nat)
    requires FirstCover(w, t)
    requires u > 0 && v > 0 && q * u < w && b <= q * u + u
    requires k * v < w <= k * v + v <= MAX_ADDRESSABLE_SECTORS && k * v <= b <= k * v + v
    requires forall y {:trigger Unit(y)} :: q * u <= y < b ==> Unit(y) == u
    requires forall y {:trigger Unit(y)} :: b <= y <= k * v + v ==> Unit(y) == v
    ensures Described(t) == t
  {
    forall y | w <= y < b ensures Described(y) < w {
      AtMultiple(y, u, q);
    }
    forall y | b <= y < k * v + v ensures Described(y) < w {
      AtMultiple(y, v, k);
    }
    Distribute(k + 1, 1, v);
    AtMultiple(k * v + v, v, k + 1);
    assert FirstCover(w, k * v + v);
    FirstCoverUnique(w, k * v + v, t);
  }

  lemma ExactWideRungs(w: nat, t: nat)
    requires FirstCover(w, t) && 278544 < w
    ensures Described(t) == t && !InRungGap(w)
  {
    if w <= 507408 {
      StopsAt(w, t, 496, (w + 495) / 496);
    } else if w <= 507904 {
      LastEdge(w, t, 507904, 496, 1023, 1008, 503);
    } else if w <= 66058272 {
      StopsAt(w, t, 1008, (w + 1007) / 1008);
    } else if w <= 66059280 {
      LastEdge(w, t, 66059280, 1008, 65534, 4080, 16190);
    } else {
      StopsAt(w, t, 4080, (w + 4079) / 4080);
    }
  }

  /** A request the rounding gets wrong: the search stops at 69,649 sectors, the image is
      created with 69,615, and the geometry written beside that size describes 69,564. */
  lemma RoundingMissesGap()
    ensures FirstCover(69600, 69649) && Described(69649) == 69615 && Described(69615) == 69564
  {
    forall y | 69600 <= y < 69632 ensures Described(y) == 69564 {
      assert Unit(y) == 68;
      AtMultiple(y, 68, 1023);
    }
    forall y | 69632 <= y < 69649 ensures Described(y) == 69440 {
      UnitOnEdge(4, y);
      AtMultiple(y, 496, 140);
    }
    UnitOnRung(5, 69649);
    AtMultiple(69649, 85, 819);
  }
}
