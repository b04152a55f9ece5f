/** The sphere mesh: rings of cells at latitudes `phi = k * PHI_STEP`, each
    ring's air cells linked to their neighbours in the ring ("lat") and to a
    range of air cells of the next ring ("lon"). The ring sizes, which the
    program computes with `round(1 + 99 * sin(phi))`, are an input here. */
module Mesh {
  import opened Numerics
  import opened Cells

  const PHI_STEP: real := 0.05

  /** The latitude of ring `k`: numpy's `arange(0, pi + 0.001, PHI_STEP)`
      taken exactly, so only ring 0 (the pole) is at phi == 0. */
  function Phi(k: nat): (phi: real)
    ensures phi == 0.0 <==> k == 0
    ensures k > 0 ==> phi > 0.0
  {
    (k as real) * PHI_STEP
  }

  /** Python's `a % n` for a positive `n`: the remainder in [0, n), also for
      negative `a` (Dafny's `%` agrees with Python's on a positive modulus). */
  function Wrap(a: int, n: int): (r: int)
    requires n > 0
    ensures 0 <= r < n
    ensures 0 <= a < n ==> r == a
  {
    a % n
  }

  // ---------------------------------------------------------------------
  // Links within a ring

  /** Position `i` and `j` of a ring of `n` cells are linked "lat": they are
      next to each other, or `closed` holds and they are the two ends (which
      for a ring of one cell is the cell with itself). */
  predicate RingLinked(n: nat, closed: bool, i: int, j: int) {
    i - j == 1 || j - i == 1 || (closed && ((i == 0 && j == n - 1) || (i == n - 1 && j == 0)))
  }

  /** A closed ring of at least two cells is a cycle: each cell is linked to
      its successor and its predecessor modulo `n`, and to nothing else. */
  lemma RingClosedIsCycle(n: nat, i: nat, j: nat)
    requires 2 <= n && i < n && j < n
    ensures RingLinked(n, true, i, j) <==> j == Wrap(i + 1, n) || i == Wrap(j + 1, n)
  {
    if i + 1 == n {
      ModSelf(n);
    }
    if j + 1 == n {
      ModSelf(n);
    }
  }

  lemma ModSelf(n: int)
    requires n > 0
    ensures n % n == 0
  {
    ModUnique(n, n, 1, 0);
  }

  // ---------------------------------------------------------------------
  // Arithmetic on remainders

  /** Euclidean division is unique: a quotient and a remainder in [0, n) that
      give back `a` are `a / n` and `a % n`. */
  lemma {:induction false} ModUnique(a: int, n: int, q: int, r: int)
    requires n > 0 && 0 <= r < n && a == q * n + r
    ensures a % n == r && a / n == q
  {
    var d := a / n - q;
    assert d * n == r - a % n;
    if d >= 1 {
      assert d * n == (d - 1) * n + n;
      MulNonNeg(d - 1, n);
    } else if d <= -1 {
      assert d * n == (d + 1) * n - n;
      MulNonNeg(-(d + 1), n);
    }
  }

  lemma MulNonNeg(x: int, y: int)
    requires x >= 0 && y >= 0
    ensures x * y >= 0
  {
  }

  /** Numbers that agree modulo `n` keep agreeing after the same shift. */
  lemma ModShift(m: int, j: int, lo: int, n: int)
    requires n > 0 && 0 <= j < n && m % n == j
    ensures (m - lo) % n == (j - lo) % n
  {
    var qm, qj, r := m / n, (j - lo) / n, (j - lo) % n;
    assert m == qm * n + j;
    assert j - lo == qj * n + r;
    assert m - lo == (qm + qj) * n + r;
    ModUnique(m - lo, n, qm + qj, r);
  }

  /** The remainder of a non-negative number is at most the number. */
  lemma ModLe(a: int, n: int)
    requires n > 0 && a >= 0
    ensures a % n <= a
  {
    MulNonNeg(a / n, n);
    assert a == (a / n) * n + a % n;
  }

  // ---------------------------------------------------------------------
  // Links between rings

  /** The first and last index `ind1` the inner loop visits for position
      `i2` of a ring of `n2` cells linked to the next ring of `n1` cells:
      `round((i2 - 0.5) * n1 / n2)` and `round((i2 + 0.5) * n1 / n2)`. */
  function LonLo(n2: nat, n1: nat, i2: int): int
    requires n2 > 0
  {
    RoundHalfEven((2 * i2 - 1) * n1, 2 * n2)
  }

  function LonHi(n2: nat, n1: nat, i2: int): int
    requires n2 > 0
  {
    RoundHalfEven((2 * i2 + 1) * n1, 2 * n2)
  }

  /** LonLo and LonHi are the integers nearest to `(i2 - 0.5) * n1 / n2` and
      `(i2 + 0.5) * n1 / n2`, the even one on a tie. */
  lemma LonNearest(n2: nat, n1: nat, i2: int)
    requires n2 > 0
    ensures var lo := LonLo(n2, n1, i2);
      n2 * (2 * lo - 1) <= (2 * i2 - 1) * n1 <= n2 * (2 * lo + 1) &&
      ((2 * i2 - 1) * n1 == n2 * (2 * lo - 1) || (2 * i2 - 1) * n1 == n2 * (2 * lo + 1) ==> lo % 2 == 0)
    ensures var hi := LonHi(n2, n1, i2);
      n2 * (2 * hi - 1) <= (2 * i2 + 1) * n1 <= n2 * (2 * hi + 1) &&
      ((2 * i2 + 1) * n1 == n2 * (2 * hi - 1) || (2 * i2 + 1) * n1 == n2 * (2 * hi + 1) ==> hi % 2 == 0)
  {
    HalfRound((2 * i2 - 1) * n1, n2);
    HalfRound((2 * i2 + 1) * n1, n2);
  }

  /** Rounding `num / (2 * n)` puts `num / n` within one of twice the result. */
  lemma HalfRound(num: int, n: nat)
    requires n > 0
    ensures var r := RoundHalfEven(num, 2 * n);
      n * (2 * r - 1) <= num <= n * (2 * r + 1) &&
      (num == n * (2 * r - 1) || num == n * (2 * r + 1) ==> r % 2 == 0)
  {
    var r := RoundHalfEven(num, 2 * n);
    assert (2 * n) * (2 * r - 1) == 2 * (n * (2 * r - 1));
    assert (2 * n) * (2 * r + 1) == 2 * (n * (2 * r + 1));
  }

  /** Some index in [lo, hi] wraps to position `j` of a ring of `n` cells. */
  ghost predicate Hits(lo: int, hi: int, n: int, j: int)
    requires n > 0
  {
    exists m :: lo <= m <= hi && Wrap(m, n) == j
  }

  /** Position `i2` of the earlier ring (`n2` cells) is linked "lon" to
      position `j` of the later ring (`n1` cells): one of the indices the
      inner loop visits for `i2` wraps to `j`. */
  ghost predicate LonLinked(n2: nat, n1: nat, i2: int, j: int)
    requires n2 > 0 && n1 > 0
  {
    Hits(LonLo(n2, n1, i2), LonHi(n2, n1, i2), n1, j)
  }

  /** The range the inner loop visits is never empty, and consecutive ranges
      share their end point, so together they run without gaps. */
  lemma LonRangeNonEmpty(n2: nat, n1: nat, i2: int)
    requires n2 > 0
    ensures LonLo(n2, n1, i2) <= LonHi(n2, n1, i2)
    ensures LonHi(n2, n1, i2) == LonLo(n2, n1, i2 + 1)
  {
    assert (2 * i2 - 1) * n1 <= (2 * i2 + 1) * n1 by {
      assert (2 * i2 + 1) * n1 == (2 * i2 - 1) * n1 + 2 * n1;
    }
    RoundHalfEvenMonotone((2 * i2 - 1) * n1, (2 * i2 + 1) * n1, 2 * n2);
    assert 2 * (i2 + 1) - 1 == 2 * i2 + 1;
  }

  /** A closed form of Hits: the first index at or after `lo` that wraps to
      `j` is `lo + (j - lo) % n`, and it must not pass `hi`. */
  lemma HitsClosedForm(lo: int, hi: int, n: int, j: int)
    requires n > 0 && 0 <= j < n
    ensures Hits(lo, hi, n, j) <==> lo <= hi && (j - lo) % n <= hi - lo
  {
    var r := (j - lo) % n;
    if lo <= hi && r <= hi - lo {
      var m := lo + r;
      assert j - lo == ((j - lo) / n) * n + r;
      ModUnique(m, n, -((j - lo) / n), j);
      assert Wrap(m, n) == j;
    }
    if Hits(lo, hi, n, j) {
      var m :| lo <= m <= hi && Wrap(m, n) == j;
      ModShift(m, j, lo, n);
      ModLe(m - lo, n);
    }
  }

  /** Every position of the earlier ring is linked to some position of the
      later ring. */
  lemma LonLinksFromEvery(n2: nat, n1: nat, i2: int)
    requires n2 > 0 && n1 > 0
    ensures exists j :: 0 <= j < n1 && LonLinked(n2, n1, i2, j)
  {
    var lo := LonLo(n2, n1, i2);
    LonRangeNonEmpty(n2, n1, i2);
    assert Wrap(lo, n1) == Wrap(lo, n1);
    assert LonLinked(n2, n1, i2, Wrap(lo, n1));
  }

  /** The ranges for positions 0 to n2 - 1 together span at least `n1`
      consecutive indices. */
  lemma LonRangesSpan(n2: nat, n1: nat)
    requires n2 > 0 && n1 > 0
    ensures LonHi(n2, n1, n2 - 1) - LonLo(n2, n1, 0) + 1 >= n1
  {
    var lo, hi := LonLo(n2, n1, 0), LonHi(n2, n1, n2 - 1);
    var den: int, m1: int := 2 * n2, n1;
    assert den * (2 * lo - 1) <= 2 * ((2 * 0 - 1) * m1);
    assert 2 * ((2 * (n2 - 1) + 1) * m1) <= den * (2 * hi + 1);
    assert den * (2 * hi + 1) - den * (2 * lo - 1) == den * (2 * (hi - lo + 1));
    assert 2 * ((2 * (n2 - 1) + 1) * m1) - 2 * ((2 * 0 - 1) * m1) == den * (2 * m1);
    ScaleLe(den, 2 * n1, 2 * (hi - lo + 1));
  }

  /** The position of the earlier ring whose range holds index `m`, searching
      down from position `k`. */
  function Segment(n2: nat, n1: nat, m: int, k: nat): (i2: nat)
    requires n2 > 0 && k < n2
    requires LonLo(n2, n1, 0) <= m <= LonHi(n2, n1, k)
    ensures i2 <= k && LonLo(n2, n1, i2) <= m <= LonHi(n2, n1, i2)
  {
    if LonLo(n2, n1, k) <= m then k
    else
      LonRangeNonEmpty(n2, n1, k - 1);
      Segment(n2, n1, m, k - 1)
  }

  /** Every position of the later ring is linked to some position of the
      earlier ring: no cell of a new ring is left without a "lon" link. */
  lemma LonLinksToEvery(n2: nat, n1: nat, j: int)
    requires n2 > 0 && n1 > 0 && 0 <= j < n1
    ensures exists i2 :: 0 <= i2 < n2 && LonLinked(n2, n1, i2, j)
  {
    var lo := LonLo(n2, n1, 0);
    var m := lo + (j - lo) % n1;
    assert j - lo == ((j - lo) / n1) * n1 + (j - lo) % n1;
    ModUnique(m, n1, -((j - lo) / n1), j);
    LonRangesSpan(n2, n1);
    var i2 := Segment(n2, n1, m, n2 - 1);
    assert Wrap(m, n1) == j;
    assert LonLinked(n2, n1, i2, j);
  }

  // ---------------------------------------------------------------------
  // Building the rings

  /** A terrain cell of land at (theta, phi). */
  ghost predicate TerrainAt(t: Matter, theta: real, phi: real) {
    t.kind == TerrainCell(Land) && t.theta == theta && t.phi == phi &&
    t.conduct == Conductivity(Land) && t.dissipate == DISSIPATE && t.ontopof == null
  }

  /** A cell with no links in either direction. */
  ghost predicate Bare(t: Matter)
    reads t`lat, t`lon
  {
    t.lat == [] && t.lon == []
  }

  /** `a` is the air cell on top of terrain cell `t`, and `t` knows it. */
  ghost predicate AirOn(a: Matter, t: Matter)
    reads a`under, t`under
  {
    a.kind == AirCell && a.ontopof == t && t.under == a && a.under == null &&
    a.theta == t.theta && a.phi == t.phi && a.conduct == 0.0 && a.dissipate == DISSIPATE
  }

  /** A cell with no heat and nothing scheduled to conduct. */
  ghost predicate Blank(c: Matter)
    reads c`heat, c`conductableHeat, c`conductTo
  {
    c.heat == 0.0 && c.conductableHeat == 0.0 && c.conductTo == []
  }

  /** The "lat" lists of the air cells `airs` of one ring link exactly the
      positions RingLinked relates, stay within the ring and hold no cell twice. */
  ghost predicate LatLinks(airs: seq<Matter>, closed: bool)
    reads airs`lat
  {
    (forall i, j :: 0 <= i < |airs| && 0 <= j < |airs| ==>
      (airs[j] in airs[i].lat <==> RingLinked(|airs|, closed, i, j))) &&
    (forall i, p :: 0 <= i < |airs| && 0 <= p < |airs[i].lat| ==> airs[i].lat[p] in airs) &&
    (forall i :: 0 <= i < |airs| ==> NoDup(airs[i].lat))
  }

  /** Appending a new terrain and a new air cell, distinct from each other
      and from all cells so far, keeps the cells distinct. */
  lemma NoDupAppend(ts: seq<Matter>, cs: seq<Matter>, t: Matter, a: Matter)
    requires NoDup(ts + cs) && t !in ts + cs && a !in ts + cs && t != a
    ensures NoDup((ts + [t]) + (cs + [a]))
  {
    var s, r := ts + cs, (ts + [t]) + (cs + [a]);
    forall p, q | 0 <= p < |r| && 0 <= q < |r| && p != q
      ensures r[p] != r[q]
    {
      assert r[p] == (if p < |ts| then s[p] else if p == |ts| then t else if p <= |s| then s[p - 1] else a);
      assert r[q] == (if q < |ts| then s[q] else if q == |ts| then t else if q <= |s| then s[q - 1] else a);
    }
  }

  /** The cells built so far of a ring of `n` cells at latitude `phi`:
      position `p` holds the terrain cell at the `p`th linspace angle and the
      air cell on top of it, both blank, the air cell without "lon" links. */
  ghost predicate RingCells(ters: seq<Matter>, airs: seq<Matter>, n: nat, phi: real)
    requires |ters| <= n
    reads ters, airs
  {
    |airs| == |ters| &&
    forall p :: 0 <= p < |ters| ==>
      TerrainAt(ters[p], Linspace(n, p), phi) && Bare(ters[p]) && AirOn(airs[p], ters[p]) &&
      Blank(ters[p]) && Blank(airs[p]) && airs[p].lon == []
  }

  /** One ring of `n` terrain cells at latitude Phi(k), evenly spaced in
      theta, each with a fresh air cell on top; each air cell is linked to the
      one before it, and away from the pole the last is linked to the first. */
  method BuildRing(n: nat, k: nat) returns (ters: seq<Matter>, airs: seq<Matter>)
    requires n >= 1
    ensures |ters| == n && |airs| == n
    ensures forall i :: 0 <= i < n ==> fresh(ters[i]) && fresh(airs[i])
    ensures NoDup(ters + airs)
    ensures RingCells(ters, airs, n, Phi(k))
    ensures LatLinks(airs, k != 0)
  {
    var phi := Phi(k);
    ters, airs := [], [];
    while |ters| < n
      invariant |ters| <= n && |airs| == |ters|
      invariant forall p :: 0 <= p < |ters| ==> fresh(ters[p]) && fresh(airs[p])
      invariant NoDup(ters + airs)
      invariant RingCells(ters, airs, n, phi)
      invariant LatLinks(airs, false)
      decreases n - |ters|
    {
      ters, airs := AddCell(ters, airs, n, phi);
    }
    NoDupRight(ters, airs);
    FinishRing(ters, airs, n, phi);
  }

  /** Lines 125-126: away from the pole (phi != 0) the ring is closed. */
  method FinishRing(ters: seq<Matter>, airs: seq<Matter>, n: nat, phi: real)
    requires n >= 1 && |ters| == n && NoDup(ters + airs) && NoDup(airs)
    requires RingCells(ters, airs, n, phi) && LatLinks(airs, false)
    modifies airs
    ensures RingCells(ters, airs, n, phi) && LatLinks(airs, phi != 0.0)
  {
    if phi != 0.0 {
      label Open:
      CloseRing(airs, airs[0], airs[n - 1]);
      forall p | 0 <= p < n
        ensures TerrainAt(ters[p], Linspace(n, p), phi) && Bare(ters[p]) && AirOn(airs[p], ters[p])
        ensures Blank(ters[p]) && Blank(airs[p]) && airs[p].lon == []
      {
        assert old@Open(Bare(ters[p]));
        assert ters[p] != airs[0] && ters[p] != airs[n - 1] by {
          assert ters[p] == (ters + airs)[p] && airs[0] == (ters + airs)[n] && airs[n - 1] == (ters + airs)[2 * n - 1];
        }
      }
    }
  }

  /** One pass of the loop of lines 106-122: a fresh terrain cell at the next
      angle, the air cell on top of it, and, unless the angle is 0, the "lat"
      link from the new air cell to the previous one. */
  method AddCell(ters: seq<Matter>, airs: seq<Matter>, n: nat, phi: real)
    returns (ters': seq<Matter>, airs': seq<Matter>)
    requires |ters| < n && NoDup(ters + airs)
    requires RingCells(ters, airs, n, phi) && LatLinks(airs, false)
    modifies airs
    ensures |ters'| == |ters| + 1 && ters'[..|ters|] == ters && fresh(ters'[|ters|])
    ensures |airs'| == |airs| + 1 && airs'[..|airs|] == airs && fresh(airs'[|airs|])
    ensures NoDup(ters' + airs')
    ensures RingCells(ters', airs', n, phi) && LatLinks(airs', false)
  {
    var i := |ters|;
    var theta := Linspace(n, i);
    var t := new Matter.Terrain(theta, phi, Land);
    var a := new Matter.Air(t);
    NoDupAppend(ters, airs, t, a);
    ters', airs' := ters + [t], airs + [a];
    NoDupRight(ters', airs');
    assert airs'[..i] == airs;
    assert RingCells(ters', airs', n, phi) by {
      forall p | 0 <= p < i
        ensures TerrainAt(ters'[p], Linspace(n, p), phi) && Bare(ters'[p]) && AirOn(airs'[p], ters'[p])
        ensures Blank(ters'[p]) && Blank(airs'[p]) && airs'[p].lon == []
      {
        assert ters'[p] == ters[p] && airs'[p] == airs[p];
      }
    }
    assert airs'[i].lat == [];
    JoinCell(ters', airs', n, phi);
  }

  /** Line 121-122: the newest air cell, at position `i`, is linked to the one
      before it unless its angle is 0, i.e. unless it is the first of its ring. */
  method JoinCell(ters: seq<Matter>, airs: seq<Matter>, n: nat, phi: real)
    requires 1 <= |ters| <= n && NoDup(ters + airs) && NoDup(airs)
    requires RingCells(ters, airs, n, phi)
    requires LatLinks(airs[..|airs| - 1], false) && airs[|airs| - 1].lat == []
    modifies airs
    ensures RingCells(ters, airs, n, phi) && LatLinks(airs, false)
  {
    var i := |ters| - 1;
    if Linspace(n, i) != 0.0 {
      label Unlinked:
      LinkToPrevious(airs, airs[i - 1], airs[i]);
      forall p | 0 <= p <= i
        ensures TerrainAt(ters[p], Linspace(n, p), phi) && Bare(ters[p]) && AirOn(airs[p], ters[p])
        ensures Blank(ters[p]) && Blank(airs[p]) && airs[p].lon == []
      {
        assert old@Unlinked(Bare(ters[p]));
        assert ters[p] != airs[i - 1] && ters[p] != airs[i] by {
          assert ters[p] == (ters + airs)[p] && airs[i - 1] == (ters + airs)[i + i] && airs[i] == (ters + airs)[i + i + 1];
        }
      }
    } else {
      assert airs[..|airs| - 1] == [];
      OpenRingGrows(airs);
    }
  }

  lemma NoDupRight(ts: seq<Matter>, cs: seq<Matter>)
    requires NoDup(ts + cs)
    ensures NoDup(cs)
  {
    forall p, q | 0 <= p < |cs| && 0 <= q < |cs| && p != q
      ensures cs[p] != cs[q]
    {
      assert cs[p] == (ts + cs)[|ts| + p] && cs[q] == (ts + cs)[|ts| + q];
    }
  }

  /** A first cell with no links extends an open ring whose cells are linked. */
  lemma OpenRingGrows(airs: seq<Matter>)
    requires |airs| == 1 && airs[0].lat == []
    ensures LatLinks(airs, false)
  {
  }

  /** The loop step of line 122: the newest air cell of the ring is linked to
      the one before it. */
  method LinkToPrevious(airs: seq<Matter>, b: Matter, a: Matter)
    requires |airs| >= 2 && b == airs[|airs| - 2] && a == airs[|airs| - 1]
    requires NoDup(airs) && a.kind.AirCell?
    requires LatLinks(airs[..|airs| - 1], false) && a.lat == []
    modifies b`lat, a`lat
    ensures LatLinks(airs, false)
    ensures b.lon == old(b.lon) && a.lon == old(a.lon)
  {
    var m := |airs|;
    var prefix := airs[..m - 1];
    assert a !in old(b.lat) by {
      forall p | 0 <= p < |old(b.lat)| ensures old(b.lat)[p] != a {
        assert old(b.lat)[p] in prefix;
      }
    }
    a.Link(b, Lat);
    assert a.lat == [b] && b.lat == old(b.lat) + [a];
    forall i, j | 0 <= i < m && 0 <= j < m
      ensures airs[j] in airs[i].lat <==> RingLinked(m, false, i, j)
    {
      if i < m - 2 {
        assert airs[i].lat == old(airs[i].lat);
        if j == m - 1 {
          assert a !in old(airs[i].lat) by {
            forall p | 0 <= p < |old(airs[i].lat)| ensures old(airs[i].lat)[p] != a {
              assert old(airs[i].lat)[p] in prefix;
            }
          }
        } else {
          assert airs[j] == prefix[j] && airs[i] == prefix[i];
        }
      } else if i == m - 2 && j < m - 1 {
        assert airs[j] == prefix[j] && airs[i] == prefix[i];
      }
    }
    forall i, p | 0 <= i < m && 0 <= p < |airs[i].lat|
      ensures airs[i].lat[p] in airs
    {
      if i < m - 2 {
        assert airs[i] == prefix[i] && airs[i].lat == old(airs[i].lat);
      } else if i == m - 2 && p < |old(b.lat)| {
        assert airs[i] == prefix[i];
      }
    }
    forall i | 0 <= i < m
      ensures NoDup(airs[i].lat)
    {
      if i < m - 2 {
        assert airs[i] == prefix[i];
      } else if i == m - 2 {
        assert b == prefix[i];
      }
    }
  }

  /** Line 126: away from the pole the last air cell of the ring is linked to
      the first, which closes the ring. */
  method CloseRing(airs: seq<Matter>, first: Matter, last: Matter)
    requires |airs| >= 1 && first == airs[0] && last == airs[|airs| - 1]
    requires NoDup(airs) && first.kind.AirCell?
    requires LatLinks(airs, false)
    modifies first`lat, last`lat
    ensures LatLinks(airs, true)
    ensures first.lon == old(first.lon) && last.lon == old(last.lon)
  {
    var m := |airs|;
    first.Link(last, Lat);
    forall i, j | 0 <= i < m && 0 <= j < m
      ensures airs[j] in airs[i].lat <==> RingLinked(m, true, i, j)
    {
      if i != 0 && i != m - 1 {
        assert airs[i].lat == old(airs[i].lat);
      }
    }
    forall i, p | 0 <= i < m && 0 <= p < |airs[i].lat|
      ensures airs[i].lat[p] in airs
    {
      if i != 0 && i != m - 1 {
        assert airs[i].lat == old(airs[i].lat);
      }
    }
    forall i | 0 <= i < m
      ensures NoDup(airs[i].lat)
    {
    }
  }

  // ---------------------------------------------------------------------
  // Linking consecutive rings

  /** The pairs (position of the earlier ring, position of the later ring)
      linked "lon" when all positions of an `n2`-cell ring have been linked to
      an `n1`-cell ring. */
  ghost function LonPairs(n2: nat, n1: nat): set<(int, int)>
    requires n2 > 0 && n1 > 0
  {
    set i2, j | 0 <= i2 < n2 && 0 <= j < n1 && LonLinked(n2, n1, i2, j) :: (i2, j)
  }

  /** The pairs linked once the loops of lines 138-141 have handled every
      position before `ind2` and, for position `ind2`, the indices up to
      `last`. */
  ghost function DonePairs(n2: nat, n1: nat, ind2: int, last: int): set<(int, int)>
    requires n2 > 0 && n1 > 0
  {
    set i2, j | 0 <= i2 < n2 && 0 <= j < n1 &&
      ((i2 < ind2 && LonLinked(n2, n1, i2, j)) ||
       (i2 == ind2 && Hits(LonLo(n2, n1, i2), last, n1, j))) :: (i2, j)
  }

  /** Widening the range by one index adds exactly the position it wraps to. */
  lemma HitsStep(lo: int, m: int, n: int, j: int)
    requires n > 0 && lo <= m
    ensures Hits(lo, m, n, j) <==> Hits(lo, m - 1, n, j) || Wrap(m, n) == j
  {
    if Hits(lo, m, n, j) && Wrap(m, n) != j {
      var x :| lo <= x <= m && Wrap(x, n) == j;
      assert lo <= x <= m - 1;
    }
  }

  /** Before the loops nothing is linked. */
  lemma DonePairsStart(n2: nat, n1: nat)
    requires n2 > 0 && n1 > 0
    ensures DonePairs(n2, n1, 0, LonLo(n2, n1, 0) - 1) == {}
  {
    var lo := LonLo(n2, n1, 0);
    forall i2, j | 0 <= i2 < n2 && 0 <= j < n1
      ensures (i2, j) !in DonePairs(n2, n1, 0, lo - 1)
    {
      assert !Hits(lo, lo - 1, n1, j);
    }
  }

  /** One pass of the inner loop adds the pair it links. */
  lemma DonePairsStep(n2: nat, n1: nat, ind2: nat, last: int)
    requires n2 > 0 && n1 > 0 && ind2 < n2 && LonLo(n2, n1, ind2) <= last + 1
    ensures DonePairs(n2, n1, ind2, last + 1) == DonePairs(n2, n1, ind2, last) + {(ind2, Wrap(last + 1, n1))}
  {
    var lo := LonLo(n2, n1, ind2);
    forall j | 0 <= j < n1
      ensures Hits(lo, last + 1, n1, j) <==> Hits(lo, last, n1, j) || Wrap(last + 1, n1) == j
    {
      HitsStep(lo, last + 1, n1, j);
    }
  }

  /** Moving from the last index of one position to the first index of the
      next position links nothing new. */
  lemma DonePairsNext(n2: nat, n1: nat, ind2: int)
    requires n2 > 0 && n1 > 0
    ensures DonePairs(n2, n1, ind2, LonHi(n2, n1, ind2)) == DonePairs(n2, n1, ind2 + 1, LonLo(n2, n1, ind2 + 1) - 1)
  {
    var lo := LonLo(n2, n1, ind2 + 1);
    var below := lo - 1;
    forall j | 0 <= j < n1
      ensures !Hits(lo, below, n1, j)
    {
    }
  }

  /** After the last position the pairs linked are the LonLinked ones. */
  lemma DonePairsEnd(n2: nat, n1: nat)
    requires n2 > 0 && n1 > 0
    ensures DonePairs(n2, n1, n2, LonLo(n2, n1, n2) - 1) == LonPairs(n2, n1)
  {
  }

  /** Distinct cells stay distinct when the list is split in two. */
  lemma NoDupSplit(l2: seq<Matter>, l1: seq<Matter>)
    requires NoDup(l2 + l1)
    ensures NoDup(l2) && NoDup(l1)
    ensures forall i2, j :: 0 <= i2 < |l2| && 0 <= j < |l1| ==> l2[i2] != l1[j]
  {
    NoDupRight(l2, l1);
    forall p, q | 0 <= p < |l2| && 0 <= q < |l2| && p != q
      ensures l2[p] != l2[q]
    {
      assert l2[p] == (l2 + l1)[p] && l2[q] == (l2 + l1)[q];
    }
    forall i2, j | 0 <= i2 < |l2| && 0 <= j < |l1|
      ensures l2[i2] != l1[j]
    {
      assert l2[i2] == (l2 + l1)[i2] && l1[j] == (l2 + l1)[|l2| + j];
    }
  }

  /** The "lon" lists of the earlier ring `l2` and the later ring `l1` while
      they are being linked: `before` holds the lists of `l2` when linking
      began, which only grow by cells of `l1`; the cells of `l1` link only
      cells of `l2`; the pair (i2, j) is linked in both directions exactly
      when it is in `pairs`; and no list holds a cell twice. */
  ghost predicate CrossLinks(l2: seq<Matter>, l1: seq<Matter>, before: seq<seq<Matter>>, pairs: set<(int, int)>)
    reads l2`lon, l1`lon
  {
    |before| == |l2| &&
    (forall i2, j :: 0 <= i2 < |l2| && 0 <= j < |l1| ==>
      (l1[j] in l2[i2].lon <==> (i2, j) in pairs) && (l2[i2] in l1[j].lon <==> (i2, j) in pairs)) &&
    (forall i2 :: 0 <= i2 < |l2| ==> before[i2] <= l2[i2].lon && NoDup(l2[i2].lon)) &&
    (forall i2, p :: 0 <= i2 < |l2| && |before[i2]| <= p < |l2[i2].lon| ==> l2[i2].lon[p] in l1) &&
    (forall j, p :: 0 <= j < |l1| && 0 <= p < |l1[j].lon| ==> l1[j].lon[p] in l2) &&
    (forall j :: 0 <= j < |l1| ==> NoDup(l1[j].lon))
  }

  /** The body of the inner loop (line 141): position `i2` of the earlier
      ring is linked "lon" to position `j` of the later ring, both ways. */
  method LinkStep(l2: seq<Matter>, l1: seq<Matter>, ghost before: seq<seq<Matter>>,
                  ghost pairs: set<(int, int)>, i2: nat, j: nat, a: Matter, b: Matter)
    requires i2 < |l2| && j < |l1| && a == l2[i2] && b == l1[j] && NoDup(l2 + l1)
    requires a.kind.AirCell?
    requires CrossLinks(l2, l1, before, pairs)
    modifies a`lon, b`lon
    ensures CrossLinks(l2, l1, before, pairs + {(i2, j)})
  {
    var n2, n1 := |l2|, |l1|;
    NoDupSplit(l2, l1);
    a.Link(b, Lon);
    forall k2, k | 0 <= k2 < n2 && 0 <= k < n1
      ensures l1[k] in l2[k2].lon <==> (k2, k) in pairs + {(i2, j)}
      ensures l2[k2] in l1[k].lon <==> (k2, k) in pairs + {(i2, j)}
    {
      if k2 != i2 {
        assert l2[k2].lon == old(l2[k2].lon);
      }
      if k != j {
        assert l1[k].lon == old(l1[k].lon);
      }
    }
    forall k2 | 0 <= k2 < n2
      ensures before[k2] <= l2[k2].lon && NoDup(l2[k2].lon)
    {
      if k2 != i2 {
        assert l2[k2].lon == old(l2[k2].lon);
      }
    }
    forall k2, p | 0 <= k2 < n2 && |before[k2]| <= p < |l2[k2].lon|
      ensures l2[k2].lon[p] in l1
    {
      if k2 != i2 {
        assert l2[k2].lon == old(l2[k2].lon);
      } else if p < |old(a.lon)| {
        assert l2[k2].lon[p] == old(a.lon)[p];
      }
    }
    forall k, p | 0 <= k < n1 && 0 <= p < |l1[k].lon|
      ensures l1[k].lon[p] in l2
    {
      if k != j {
        assert l1[k].lon == old(l1[k].lon);
      } else if p < |old(b.lon)| {
        assert l1[k].lon[p] == old(b.lon)[p];
      }
    }
    forall k | 0 <= k < n1
      ensures NoDup(l1[k].lon)
    {
      if k != j {
        assert l1[k].lon == old(l1[k].lon);
      }
    }
  }

  /** The "lon" lists of a list of cells, in order. */
  function Lons(cs: seq<Matter>): (r: seq<seq<Matter>>)
    reads cs`lon
    ensures |r| == |cs| && forall i :: 0 <= i < |cs| ==> r[i] == cs[i].lon
  {
    if cs == [] then [] else [cs[0].lon] + Lons(cs[1..])
  }

  /** Before any "lon" link between two rings, with the cells of the later
      ring unlinked and those of the earlier ring linked to neither. */
  lemma CrossLinksStart(l2: seq<Matter>, l1: seq<Matter>)
    requires forall j :: 0 <= j < |l1| ==> l1[j].lon == []
    requires forall i2, p :: 0 <= i2 < |l2| && 0 <= p < |l2[i2].lon| ==> l2[i2].lon[p] !in l1
    requires forall i2 :: 0 <= i2 < |l2| ==> NoDup(l2[i2].lon)
    ensures CrossLinks(l2, l1, Lons(l2), {})
  {
    NothingLinked(l2, l1);
  }

  lemma NothingLinked(l2: seq<Matter>, l1: seq<Matter>)
    requires forall j :: 0 <= j < |l1| ==> l1[j].lon == []
    requires forall i2, p :: 0 <= i2 < |l2| && 0 <= p < |l2[i2].lon| ==> l2[i2].lon[p] !in l1
    ensures forall i2, j :: 0 <= i2 < |l2| && 0 <= j < |l1| ==> l1[j] !in l2[i2].lon && l2[i2] !in l1[j].lon
  {
    forall i2, j | 0 <= i2 < |l2| && 0 <= j < |l1|
      ensures l1[j] !in l2[i2].lon && l2[i2] !in l1[j].lon
    {
    }
  }

  /** The inner loop of lines 140-141 for position `ind2` of the earlier
      ring: it is linked to every position an index of its range wraps to. */
  method LinkPosition(l2: seq<Matter>, l1: seq<Matter>, ghost before: seq<seq<Matter>>,
                      ind2: nat)
    requires |l1| > 0 && ind2 < |l2| && NoDup(l2 + l1)
    requires forall i2 :: 0 <= i2 < |l2| ==> l2[i2].kind.AirCell?
    requires CrossLinks(l2, l1, before, DonePairs(|l2|, |l1|, ind2, LonLo(|l2|, |l1|, ind2) - 1))
    modifies l2`lon, l1`lon
    ensures CrossLinks(l2, l1, before, DonePairs(|l2|, |l1|, ind2 + 1, LonLo(|l2|, |l1|, ind2 + 1) - 1))
  {
    var n1, n2 := |l1|, |l2|;
    var lo, hi := LonLo(n2, n1, ind2), LonHi(n2, n1, ind2);
    LonRangeNonEmpty(n2, n1, ind2);
    var last := lo - 1;
    ghost var pairs := DonePairs(n2, n1, ind2, last);
    while last < hi
      invariant lo - 1 <= last <= hi && pairs == DonePairs(n2, n1, ind2, last)
      invariant CrossLinks(l2, l1, before, pairs)
    {
      var i2, j := Wrap(ind2, n2), Wrap(last + 1, n1);
      DonePairsStep(n2, n1, ind2, last);
      LinkStep(l2, l1, before, pairs, i2, j, l2[i2], l1[j]);
      last, pairs := last + 1, pairs + {(i2, j)};
    }
    DonePairsNext(n2, n1, ind2);
  }

  /** Lines 132-141: every position `ind2` of the earlier ring `l2` is linked
      "lon", both ways, to the positions of the later ring `l1` that the
      indices round((ind2 - 0.5) * n1 / n2) .. round((ind2 + 0.5) * n1 / n2)
      wrap to. The cells of `l1` start without "lon" links; those of `l2`
      keep theirs and gain cells of `l1` at the end. */
  method LinkRings(l2: seq<Matter>, l1: seq<Matter>)
    requires |l2| > 0 && |l1| > 0 && NoDup(l2 + l1)
    requires forall i2 :: 0 <= i2 < |l2| ==> l2[i2].kind.AirCell?
    requires forall j :: 0 <= j < |l1| ==> l1[j].lon == []
    requires forall i2, p :: 0 <= i2 < |l2| && 0 <= p < |l2[i2].lon| ==> l2[i2].lon[p] !in l1
    requires forall i2 :: 0 <= i2 < |l2| ==> NoDup(l2[i2].lon)
    modifies l2`lon, l1`lon
    ensures CrossLinks(l2, l1, old(Lons(l2)), LonPairs(|l2|, |l1|))
  {
    var n1, n2 := |l1|, |l2|;
    ghost var before := Lons(l2);
    DonePairsStart(n2, n1);
    CrossLinksStart(l2, l1);
    for ind2 := 0 to n2
      invariant CrossLinks(l2, l1, before, DonePairs(n2, n1, ind2, LonLo(n2, n1, ind2) - 1))
    {
      LinkPosition(l2, l1, before, ind2);
    }
    DonePairsEnd(n2, n1);
  }
}
