/** The whole sphere (lines 99-145 of main.py): one ring per latitude
    `Phi(k)`, each ring linked "lon" to the ring before it, and the flat lists
    ALL_TER and ALL_AIR of every terrain and every air cell, ring after ring. */
module Sphere {
  import opened Numerics
  import opened Cells
  import opened Mesh

  /** Every cell of a list of rings. */
  ghost function AllOf(rs: seq<seq<Matter>>): set<Matter> {
    set k, i | 0 <= k < |rs| && 0 <= i < |rs[k]| :: rs[k][i]
  }

  /** The cells of a list of rings, ring after ring (lines 144-145). */
  function Flatten(rs: seq<seq<Matter>>): seq<Matter> {
    if rs == [] then [] else Flatten(rs[..|rs| - 1]) + rs[|rs| - 1]
  }

  /** Every cell of every ring is in the flat list. */
  lemma {:induction false} FlattenHas(rs: seq<seq<Matter>>, k: nat, i: nat)
    requires k < |rs| && i < |rs[k]|
    ensures rs[k][i] in Flatten(rs)
  {
    var r := |rs|;
    if k < r - 1 {
      assert rs[..r - 1][k] == rs[k];
      FlattenHas(rs[..r - 1], k, i);
    } else {
      assert rs[k][i] in rs[r - 1];
    }
  }

  /** Every cell of the flat list is the cell at some position of some ring. */
  lemma {:induction false} FlattenFrom(rs: seq<seq<Matter>>, c: Matter) returns (k: nat, i: nat)
    requires c in Flatten(rs)
    ensures k < |rs| && i < |rs[k]| && rs[k][i] == c
  {
    var r := |rs|;
    var p := rs[..r - 1];
    if c in Flatten(p) {
      k, i := FlattenFrom(p, c);
      assert rs[k] == p[k];
    } else {
      k := r - 1;
      i :| 0 <= i < |rs[k]| && rs[k][i] == c;
    }
  }

  /** Two lists of rings of the same sizes flatten to lists of the same
      length, position `j` of both coming from the same position of the same
      ring. */
  lemma {:induction false} FlattenAt(ters: seq<seq<Matter>>, airs: seq<seq<Matter>>, j: nat) returns (k: nat, i: nat)
    requires |ters| == |airs| && forall k :: 0 <= k < |ters| ==> |ters[k]| == |airs[k]|
    requires j < |Flatten(ters)|
    ensures |Flatten(ters)| == |Flatten(airs)|
    ensures k < |ters| && i < |ters[k]| && Flatten(ters)[j] == ters[k][i] && Flatten(airs)[j] == airs[k][i]
  {
    FlattenSameLength(ters, airs);
    var r := |ters|;
    var pt, pa := ters[..r - 1], airs[..r - 1];
    assert forall k :: 0 <= k < r - 1 ==> pt[k] == ters[k] && pa[k] == airs[k];
    FlattenSameLength(pt, pa);
    if j < |Flatten(pt)| {
      k, i := FlattenAt(pt, pa, j);
    } else {
      k, i := r - 1, j - |Flatten(pt)|;
    }
  }

  /** Two lists of rings of the same sizes flatten to lists of the same length. */
  lemma {:induction false} FlattenSameLength(ters: seq<seq<Matter>>, airs: seq<seq<Matter>>)
    requires |ters| == |airs| && forall k :: 0 <= k < |ters| ==> |ters[k]| == |airs[k]|
    ensures |Flatten(ters)| == |Flatten(airs)|
  {
    if ters != [] {
      var r := |ters|;
      var pt, pa := ters[..r - 1], airs[..r - 1];
      assert forall k :: 0 <= k < r - 1 ==> pt[k] == ters[k] && pa[k] == airs[k];
      FlattenSameLength(pt, pa);
    }
  }

  /** Rings free of repeats and sharing no cell flatten to a list free of repeats. */
  lemma {:induction false} FlattenNoDup(rs: seq<seq<Matter>>)
    requires forall k :: 0 <= k < |rs| ==> NoDup(rs[k])
    requires forall k, k', i, j :: 0 <= k < k' < |rs| && 0 <= i < |rs[k]| && 0 <= j < |rs[k']| ==>
      rs[k][i] != rs[k'][j]
    ensures NoDup(Flatten(rs))
  {
    if rs != [] {
      var r := |rs|;
      var p := rs[..r - 1];
      assert forall k :: 0 <= k < r - 1 ==> p[k] == rs[k];
      FlattenNoDup(p);
      var f, last := Flatten(p), rs[r - 1];
      forall x, j | 0 <= x < |f| && 0 <= j < |last| ensures f[x] != last[j] {
        var k, i := FlattenFrom(p, f[x]);
      }
      NoDupJoin(f, last);
    }
  }

  /** The flat lists of terrain cells and of air cells of distinct rings
      together hold no cell twice. */
  lemma FlattenDistinct(ters: seq<seq<Matter>>, airs: seq<seq<Matter>>)
    requires Distinct(ters, airs)
    ensures NoDup(Flatten(ters) + Flatten(airs))
  {
    forall k | 0 <= k < |ters| ensures NoDup(ters[k]) && NoDup(airs[k]) {
      NoDupSplit(ters[k], airs[k]);
    }
    FlattenNoDup(ters);
    FlattenNoDup(airs);
    var ft, fa := Flatten(ters), Flatten(airs);
    forall x, y | 0 <= x < |ft| && 0 <= y < |fa| ensures ft[x] != fa[y] {
      var k, i := FlattenFrom(ters, ft[x]);
      var k', j := FlattenFrom(airs, fa[y]);
      if k == k' {
        NoDupSplit(ters[k], airs[k]);
      }
    }
    NoDupJoin(ft, fa);
  }

  /** The rings of terrain cells `ters` and air cells `airs` pair up ring by
      ring and position by position, and no cell occurs twice anywhere. */
  ghost predicate Distinct(ters: seq<seq<Matter>>, airs: seq<seq<Matter>>) {
    |airs| == |ters| &&
    (forall k :: 0 <= k < |ters| ==> |airs[k]| == |ters[k]| && NoDup(ters[k] + airs[k])) &&
    (forall k, k', i, j ::
      0 <= k < k' < |ters| && 0 <= i < |ters[k]| && 0 <= j < |ters[k']| && i < |airs[k]| && j < |airs[k']| ==>
      ters[k][i] != ters[k'][j] && ters[k][i] != airs[k'][j] &&
      airs[k][i] != ters[k'][j] && airs[k][i] != airs[k'][j])
  }

  /** The cells of a new ring `nt`, `na` are none of the cells of `ters`, `airs`. */
  ghost predicate Apart(ters: seq<seq<Matter>>, airs: seq<seq<Matter>>, nt: seq<Matter>, na: seq<Matter>)
    requires Distinct(ters, airs)
  {
    |na| == |nt| &&
    forall k, i, j :: 0 <= k < |ters| && 0 <= i < |ters[k]| && 0 <= j < |nt| ==>
      ters[k][i] != nt[j] && ters[k][i] != na[j] && airs[k][i] != nt[j] && airs[k][i] != na[j]
  }

  lemma DistinctGrow(ters: seq<seq<Matter>>, airs: seq<seq<Matter>>, nt: seq<Matter>, na: seq<Matter>)
    requires Distinct(ters, airs) && Apart(ters, airs, nt, na) && NoDup(nt + na)
    ensures Distinct(ters + [nt], airs + [na])
  {
    var t2: seq<seq<Matter>>, a2: seq<seq<Matter>> := ters + [nt], airs + [na];
    forall k | 0 <= k < |t2| ensures |a2[k]| == |t2[k]| && NoDup(t2[k] + a2[k]) {
      if k < |ters| {
        assert t2[k] == ters[k] && a2[k] == airs[k];
      }
    }
  }

  /** The ring sizes `sizes` are matched by the rings built so far, which
      are all distinct cells. */
  ghost predicate MeshShape(ters: seq<seq<Matter>>, airs: seq<seq<Matter>>, sizes: seq<nat>) {
    |ters| <= |sizes| && Distinct(ters, airs) &&
    forall k :: 0 <= k < |ters| ==> |ters[k]| == sizes[k] >= 1
  }

  /** Ring `k` of `n` cells: terrain cells at the linspace angles and latitude
      `phi`, the air cells on top of them. */
  ghost predicate RingShape(ts: seq<Matter>, cs: seq<Matter>, n: nat, phi: real)
    reads ts`under, cs`under
  {
    |ts| == n && |cs| == n &&
    forall p :: 0 <= p < n ==>
      TerrainAt(ts[p], Linspace(n, p), phi) && AirOn(cs[p], ts[p])
  }

  ghost predicate MeshCells(ters: seq<seq<Matter>>, airs: seq<seq<Matter>>)
    requires |airs| == |ters|
    reads AllOf(ters)`under, AllOf(airs)`under
  {
    forall k :: 0 <= k < |ters| ==> RingShape(ters[k], airs[k], |ters[k]|, Phi(k))
  }

  /** No terrain cell is linked to anything. */
  ghost predicate MeshBare(ters: seq<seq<Matter>>)
    reads AllOf(ters)`lat, AllOf(ters)`lon
  {
    forall k, p :: 0 <= k < |ters| && 0 <= p < |ters[k]| ==> Bare(ters[k][p])
  }

  /** Every ring is linked "lat" around, closed away from the pole. */
  ghost predicate MeshLats(airs: seq<seq<Matter>>)
    reads AllOf(airs)`lat
  {
    forall k :: 0 <= k < |airs| ==> LatLinks(airs[k], k != 0)
  }

  /** `lons` holds the current "lon" list of every cell of `airs`. */
  ghost predicate LonsMatch(airs: seq<seq<Matter>>, lons: seq<seq<seq<Matter>>>)
    reads AllOf(airs)`lon
  {
    |lons| == |airs| && (forall k :: 0 <= k < |airs| ==> |lons[k]| == |airs[k]|) &&
    forall k, i :: 0 <= k < |airs| && 0 <= i < |airs[k]| ==> airs[k][i].lon == lons[k][i]
  }

  /** `lons` has one list per cell of `airs`. */
  ghost predicate Shaped(airs: seq<seq<Matter>>, lons: seq<seq<seq<Matter>>>) {
    |lons| == |airs| && forall k :: 0 <= k < |airs| ==> |lons[k]| == |airs[k]|
  }

  /** Consecutive rings are linked "lon", both ways, exactly at the pairs of
      positions LonPairs gives, `lons` being the "lon" lists. */
  ghost predicate LonsPaired(airs: seq<seq<Matter>>, lons: seq<seq<seq<Matter>>>)
    requires Shaped(airs, lons)
  {
    forall k, i2, j :: 1 <= k < |airs| && 0 <= i2 < |airs[k - 1]| && 0 <= j < |airs[k]| ==>
      (airs[k][j] in lons[k - 1][i2] <==> (i2, j) in LonPairs(|airs[k - 1]|, |airs[k]|)) &&
      (airs[k - 1][i2] in lons[k][j] <==> (i2, j) in LonPairs(|airs[k - 1]|, |airs[k]|))
  }

  /** The "lon" lists of a ring's cells hold cells of the rings before and
      after it only, and no cell twice. */
  ghost predicate LonsLocal(airs: seq<seq<Matter>>, lons: seq<seq<seq<Matter>>>)
    requires Shaped(airs, lons)
  {
    (forall k, i, p :: 0 <= k < |airs| && 0 <= i < |airs[k]| && 0 <= p < |lons[k][i]| ==>
      (k > 0 && lons[k][i][p] in airs[k - 1]) || (k + 1 < |airs| && lons[k][i][p] in airs[k + 1])) &&
    (forall k, i :: 0 <= k < |airs| && 0 <= i < |airs[k]| ==> NoDup(lons[k][i]))
  }

  ghost predicate LonsFit(airs: seq<seq<Matter>>, lons: seq<seq<seq<Matter>>>) {
    Shaped(airs, lons) && LonsPaired(airs, lons) && LonsLocal(airs, lons)
  }

  /** The "lon" lists of the last ring `airs[|airs| - 1]` went from `lons` to
      `newL2` by gaining cells of the new ring `na` only. */
  ghost predicate GainedOnly(airs: seq<seq<Matter>>, na: seq<Matter>, lons: seq<seq<seq<Matter>>>,
                             newL2: seq<seq<Matter>>)
    requires |airs| >= 1 && Shaped(airs, lons)
  {
    |newL2| == |airs[|airs| - 1]| &&
    (forall i :: 0 <= i < |newL2| ==> lons[|airs| - 1][i] <= newL2[i] && NoDup(newL2[i])) &&
    (forall i, p :: 0 <= i < |newL2| && |lons[|airs| - 1][i]| <= p < |newL2[i]| ==> newL2[i][p] in na)
  }

  /** Linking a new ring `na` to the last ring keeps the "lon" pairs as
      LonPairs says, given what the linking did between the two. */
  lemma PairedGrow(airs: seq<seq<Matter>>, na: seq<Matter>, lons: seq<seq<seq<Matter>>>,
                   newL2: seq<seq<Matter>>, newNa: seq<seq<Matter>>)
    requires |airs| >= 1 && |na| >= 1 && Shaped(airs, lons) && LonsPaired(airs, lons)
    requires forall k, i, j :: 0 <= k < |airs| && 0 <= i < |airs[k]| && 0 <= j < |na| ==> airs[k][i] != na[j]
    requires GainedOnly(airs, na, lons, newL2) && |newNa| == |na|
    requires forall i2, j :: 0 <= i2 < |newL2| && 0 <= j < |na| ==>
      (na[j] in newL2[i2] <==> (i2, j) in LonPairs(|newL2|, |na|)) &&
      (airs[|airs| - 1][i2] in newNa[j] <==> (i2, j) in LonPairs(|newL2|, |na|))
    ensures Shaped(airs + [na], lons[..|airs| - 1] + [newL2, newNa])
    ensures LonsPaired(airs + [na], lons[..|airs| - 1] + [newL2, newNa])
  {
    var r := |airs|;
    var a2: seq<seq<Matter>>, l2 := airs + [na], lons[..r - 1] + [newL2, newNa];
    forall j, x | 0 <= j < |newL2| && x !in na
      ensures x in newL2[j] <==> x in lons[r - 1][j]
    {
      if x in newL2[j] {
        var p :| 0 <= p < |newL2[j]| && newL2[j][p] == x;
        assert p < |lons[r - 1][j]| && lons[r - 1][j][p] == x;
      }
    }
    forall k, i2, j | 1 <= k < r + 1 && 0 <= i2 < |a2[k - 1]| && 0 <= j < |a2[k]|
      ensures a2[k][j] in l2[k - 1][i2] <==> (i2, j) in LonPairs(|a2[k - 1]|, |a2[k]|)
      ensures a2[k - 1][i2] in l2[k][j] <==> (i2, j) in LonPairs(|a2[k - 1]|, |a2[k]|)
    {
      PairedAt(airs, na, lons, newL2, newNa, k, i2, j);
    }
  }

  /** PairedGrow for the rings `k - 1` and `k` and the positions `i2` and `j`
      in them. */
  lemma PairedAt(airs: seq<seq<Matter>>, na: seq<Matter>, lons: seq<seq<seq<Matter>>>,
                 newL2: seq<seq<Matter>>, newNa: seq<seq<Matter>>, k: nat, i2: nat, j: nat)
    requires |airs| >= 1 && |na| >= 1 && Shaped(airs, lons) && LonsPaired(airs, lons)
    requires forall k, i, j :: 0 <= k < |airs| && 0 <= i < |airs[k]| && 0 <= j < |na| ==> airs[k][i] != na[j]
    requires GainedOnly(airs, na, lons, newL2) && |newNa| == |na|
    requires forall i2, j :: 0 <= i2 < |newL2| && 0 <= j < |na| ==>
      (na[j] in newL2[i2] <==> (i2, j) in LonPairs(|newL2|, |na|)) &&
      (airs[|airs| - 1][i2] in newNa[j] <==> (i2, j) in LonPairs(|newL2|, |na|))
    requires forall j, x :: 0 <= j < |newL2| && x !in na ==> (x in newL2[j] <==> x in lons[|airs| - 1][j])
    requires 1 <= k < |airs| + 1 && i2 < |(airs + [na])[k - 1]| && j < |(airs + [na])[k]|
    ensures var a2, l2 := airs + [na], lons[..|airs| - 1] + [newL2, newNa];
      (a2[k][j] in l2[k - 1][i2] <==> (i2, j) in LonPairs(|a2[k - 1]|, |a2[k]|)) &&
      (a2[k - 1][i2] in l2[k][j] <==> (i2, j) in LonPairs(|a2[k - 1]|, |a2[k]|))
  {
    var r := |airs|;
    var a2: seq<seq<Matter>>, l2 := airs + [na], lons[..r - 1] + [newL2, newNa];
    if k < r {
      assert a2[k] == airs[k] && a2[k - 1] == airs[k - 1];
      if k == r - 1 {
        assert a2[k - 1][i2] !in na;
      }
    }
  }

  /** Linking a new ring `na` to the last ring keeps every "lon" list within
      the neighbouring rings and free of repeats. */
  lemma LocalGrow(airs: seq<seq<Matter>>, na: seq<Matter>, lons: seq<seq<seq<Matter>>>,
                  newL2: seq<seq<Matter>>, newNa: seq<seq<Matter>>)
    requires |airs| >= 1 && Shaped(airs, lons) && LonsLocal(airs, lons)
    requires GainedOnly(airs, na, lons, newL2) && |newNa| == |na|
    requires forall j, p :: 0 <= j < |na| && 0 <= p < |newNa[j]| ==> newNa[j][p] in airs[|airs| - 1]
    requires forall j :: 0 <= j < |na| ==> NoDup(newNa[j])
    ensures Shaped(airs + [na], lons[..|airs| - 1] + [newL2, newNa])
    ensures LonsLocal(airs + [na], lons[..|airs| - 1] + [newL2, newNa])
  {
    var r := |airs|;
    var a2: seq<seq<Matter>>, l2 := airs + [na], lons[..r - 1] + [newL2, newNa];
    forall k, i, p | 0 <= k < r + 1 && 0 <= i < |a2[k]| && 0 <= p < |l2[k][i]|
      ensures (k > 0 && l2[k][i][p] in a2[k - 1]) || (k + 1 < r + 1 && l2[k][i][p] in a2[k + 1])
    {
      if k == r - 1 {
        if p < |lons[r - 1][i]| {
          assert l2[k][i][p] == lons[k][i][p];
          assert k > 0 && a2[k - 1] == airs[k - 1];
        }
      } else if k < r - 1 {
        assert a2[k + 1] == airs[k + 1] && l2[k][i] == lons[k][i];
        if k > 0 {
          assert a2[k - 1] == airs[k - 1];
        }
      }
    }
    forall k, i | 0 <= k < r + 1 && 0 <= i < |a2[k]|
      ensures NoDup(l2[k][i])
    {
      if k < r - 1 {
        assert l2[k][i] == lons[k][i];
      }
    }
  }

  /** PairedGrow and LocalGrow together: the "lon" lists `lons'` after the
      linking of `na` to the last ring fit the grown mesh. */
  lemma FitGrow(airs: seq<seq<Matter>>, na: seq<Matter>, lons: seq<seq<seq<Matter>>>,
                newL2: seq<seq<Matter>>, newNa: seq<seq<Matter>>, lons': seq<seq<seq<Matter>>>)
    requires |airs| >= 1 && |na| >= 1 && LonsFit(airs, lons)
    requires forall k, i, j :: 0 <= k < |airs| && 0 <= i < |airs[k]| && 0 <= j < |na| ==> airs[k][i] != na[j]
    requires GainedOnly(airs, na, lons, newL2) && |newNa| == |na|
    requires forall i2, j :: 0 <= i2 < |newL2| && 0 <= j < |na| ==>
      (na[j] in newL2[i2] <==> (i2, j) in LonPairs(|newL2|, |na|)) &&
      (airs[|airs| - 1][i2] in newNa[j] <==> (i2, j) in LonPairs(|newL2|, |na|))
    requires forall j, p :: 0 <= j < |na| && 0 <= p < |newNa[j]| ==> newNa[j][p] in airs[|airs| - 1]
    requires forall j :: 0 <= j < |na| ==> NoDup(newNa[j])
    requires lons' == lons[..|airs| - 1] + [newL2, newNa]
    ensures LonsFit(airs + [na], lons')
  {
    PairedGrow(airs, na, lons, newL2, newNa);
    LocalGrow(airs, na, lons, newL2, newNa);
  }

  /** Two lists without repeats and without a common cell join into one. */
  lemma NoDupJoin(a: seq<Matter>, b: seq<Matter>)
    requires NoDup(a) && NoDup(b)
    requires forall i, j :: 0 <= i < |a| && 0 <= j < |b| ==> a[i] != b[j]
    ensures NoDup(a + b)
  {
    var s := a + b;
    forall p, q | 0 <= p < |s| && 0 <= q < |s| && p != q
      ensures s[p] != s[q]
    {
      assert s[p] == (if p < |a| then a[p] else b[p - |a|]);
      assert s[q] == (if q < |a| then a[q] else b[q - |a|]);
    }
  }

  /** The step of lines 129-141 for a ring away from the pole: the new ring
      `nt`, `na` is linked "lon" to the last ring so far, `l2`; `lons` are the
      "lon" lists before and `lons'` after. */
  method ExtendLinked(ters: seq<seq<Matter>>, airs: seq<seq<Matter>>, nt: seq<Matter>, na: seq<Matter>,
                      l2: seq<Matter>, ghost lons: seq<seq<seq<Matter>>>)
    returns (ghost lons': seq<seq<seq<Matter>>>)
    requires |ters| >= 1 && Distinct(ters, airs) && l2 == airs[|airs| - 1]
    requires forall k :: 0 <= k < |ters| ==> |ters[k]| >= 1
    requires |nt| >= 1 && Apart(ters, airs, nt, na) && NoDup(nt + na)
    requires MeshCells(ters, airs) && MeshBare(ters) && MeshLats(airs)
    requires LonsMatch(airs, lons) && LonsFit(airs, lons)
    requires RingCells(nt, na, |nt|, Phi(|ters|)) && LatLinks(na, true)
    modifies l2`lon, na`lon
    ensures MeshCells(ters + [nt], airs + [na]) && MeshBare(ters + [nt]) && MeshLats(airs + [na])
    ensures LonsMatch(airs + [na], lons') && LonsFit(airs + [na], lons')
  {
    NewRingKept(ters, airs, nt, na, true);
    Separate(ters, airs, nt, na);
    lons' := LinkFramed(ters + [nt], airs + [na], l2, na, lons);
  }

  /** LinkNext on the last two rings of `a2`, which keeps the facts about
      fields it does not change. */
  method LinkFramed(t2: seq<seq<Matter>>, a2: seq<seq<Matter>>, l2: seq<Matter>, na: seq<Matter>,
                    ghost lons: seq<seq<seq<Matter>>>)
    returns (ghost lons': seq<seq<seq<Matter>>>)
    requires |a2| >= 2 && |t2| == |a2| && l2 == a2[|a2| - 2] && na == a2[|a2| - 1] && |na| >= 1
    requires MeshCells(t2, a2) && MeshBare(t2) && MeshLats(a2)
    requires NoDup(l2 + na)
    requires forall k :: 0 <= k < |a2| - 1 ==> |a2[k]| >= 1
    requires forall k, i :: 0 <= k < |a2| - 1 && 0 <= i < |a2[k]| ==> a2[k][i].kind.AirCell?
    requires forall k, i, j :: 0 <= k < |a2| - 1 && 0 <= i < |a2[k]| && 0 <= j < |na| ==> a2[k][i] != na[j]
    requires forall k, i :: 0 <= k < |a2| - 2 && 0 <= i < |a2[k]| ==> a2[k][i] !in l2 && a2[k][i] !in na
    requires forall k, i :: 0 <= k < |t2| && 0 <= i < |t2[k]| ==> t2[k][i] !in l2 && t2[k][i] !in na
    requires forall j :: 0 <= j < |na| ==> na[j].lon == []
    requires LonsMatch(a2[..|a2| - 1], lons) && LonsFit(a2[..|a2| - 1], lons)
    modifies l2`lon, na`lon
    ensures MeshCells(t2, a2) && MeshBare(t2) && MeshLats(a2)
    ensures LonsMatch(a2, lons') && LonsFit(a2, lons')
  {
    var airs := a2[..|a2| - 1];
    assert airs + [na] == a2;
    lons' := LinkNext(airs, na, l2, lons);
  }

  /** Adding a new ring `nt`, `na` keeps the rings' cells, their "lat" links
      and the terrain cells' lack of links. */
  lemma NewRingKept(ters: seq<seq<Matter>>, airs: seq<seq<Matter>>, nt: seq<Matter>, na: seq<Matter>, closed: bool)
    requires Distinct(ters, airs) && |nt| >= 1
    requires MeshCells(ters, airs) && MeshBare(ters) && MeshLats(airs)
    requires RingCells(nt, na, |nt|, Phi(|ters|)) && LatLinks(na, closed) && closed == (|ters| != 0)
    ensures MeshCells(ters + [nt], airs + [na]) && MeshLats(airs + [na]) && MeshBare(ters + [nt])
    ensures forall k, i :: 0 <= k < |airs| && 0 <= i < |airs[k]| ==> airs[k][i].kind.AirCell?
  {
    var r := |ters|;
    var t2: seq<seq<Matter>>, a2: seq<seq<Matter>> := ters + [nt], airs + [na];
    forall k | 0 <= k < r + 1
      ensures RingShape(t2[k], a2[k], |t2[k]|, Phi(k)) && LatLinks(a2[k], k != 0)
    {
      if k < r {
        assert t2[k] == ters[k] && a2[k] == airs[k];
      }
    }
    forall k, p | 0 <= k < r + 1 && 0 <= p < |t2[k]|
      ensures Bare(t2[k][p])
    {
      if k < r {
        assert t2[k] == ters[k];
      }
    }
    forall k | 0 <= k < r ensures forall i :: 0 <= i < |airs[k]| ==> airs[k][i].kind.AirCell? {
      assert RingShape(ters[k], airs[k], |ters[k]|, Phi(k));
    }
  }

  /** The cells a linking of the new ring `na` to the last ring may change
      are none of the terrain cells and none of the earlier rings' air cells. */
  lemma Separate(ters: seq<seq<Matter>>, airs: seq<seq<Matter>>, nt: seq<Matter>, na: seq<Matter>)
    requires |ters| >= 1 && Distinct(ters, airs) && Apart(ters, airs, nt, na) && NoDup(nt + na)
    ensures NoDup(airs[|airs| - 1] + na)
    ensures forall k, i :: 0 <= k < |ters| + 1 && 0 <= i < |(ters + [nt])[k]| ==>
      (ters + [nt])[k][i] !in airs[|airs| - 1] && (ters + [nt])[k][i] !in na
    ensures forall k, i :: 0 <= k < |airs| - 1 && 0 <= i < |airs[k]| ==>
      airs[k][i] !in airs[|airs| - 1] && airs[k][i] !in na
  {
    var r := |ters|;
    var t2: seq<seq<Matter>> := ters + [nt];
    NoDupSplit(ters[r - 1], airs[r - 1]);
    NoDupSplit(nt, na);
    NoDupJoin(airs[r - 1], na);
    forall k, i | 0 <= k < r + 1 && 0 <= i < |t2[k]|
      ensures t2[k][i] !in airs[r - 1] && t2[k][i] !in na
      ensures k < r - 1 ==> airs[k][i] !in airs[r - 1] && airs[k][i] !in na
    {
      if k < r {
        assert t2[k] == ters[k];
      }
    }
  }

  /** Lines 132-141 on the "lon" lists alone: linking the new ring `na` to the
      last ring `l2` of `airs` keeps the lists fitting. */
  method LinkNext(airs: seq<seq<Matter>>, na: seq<Matter>, l2: seq<Matter>, ghost lons: seq<seq<seq<Matter>>>)
    returns (ghost lons': seq<seq<seq<Matter>>>)
    requires |airs| >= 1 && l2 == airs[|airs| - 1] && |na| >= 1 && NoDup(l2 + na)
    requires forall k :: 0 <= k < |airs| ==> |airs[k]| >= 1
    requires forall k, i :: 0 <= k < |airs| && 0 <= i < |airs[k]| ==> airs[k][i].kind.AirCell?
    requires forall k, i, j :: 0 <= k < |airs| && 0 <= i < |airs[k]| && 0 <= j < |na| ==> airs[k][i] != na[j]
    requires forall k, i :: 0 <= k < |airs| - 1 && 0 <= i < |airs[k]| ==> airs[k][i] !in l2 && airs[k][i] !in na
    requires forall j :: 0 <= j < |na| ==> na[j].lon == []
    requires LonsMatch(airs, lons) && LonsFit(airs, lons)
    modifies l2`lon, na`lon
    ensures LonsMatch(airs + [na], lons') && LonsFit(airs + [na], lons')
  {
    var r := |airs|;
    forall i2, p | 0 <= i2 < |l2| && 0 <= p < |l2[i2].lon|
      ensures l2[i2].lon[p] !in na
    {
      var x := l2[i2].lon[p];
      assert x == lons[r - 1][i2][p];
      assert r > 1 && x in airs[r - 2];
      var q :| 0 <= q < |airs[r - 2]| && airs[r - 2][q] == x;
    }
    assert Lons(l2) == lons[r - 1];
    LinkRings(l2, na);
    ghost var newL2, newNa := Lons(l2), Lons(na);
    lons' := lons[..r - 1] + [newL2, newNa];
    FitGrow(airs, na, lons, newL2, newNa, lons');
    forall k, i | 0 <= k < r + 1 && 0 <= i < |(airs + [na])[k]|
      ensures (airs + [na])[k][i].lon == lons'[k][i]
    {
      if k < r - 1 {
        assert (airs + [na])[k] == airs[k];
      }
    }
  }

  /** The "lon" lists of the ring at the pole, none of which holds anything
      yet, fit an one-ring mesh. */
  lemma FirstLons(na: seq<Matter>)
    requires forall j :: 0 <= j < |na| ==> na[j].lon == []
    ensures LonsMatch([na], [Lons(na)]) && LonsFit([na], [Lons(na)])
  {
    var lons := [Lons(na)];
    assert Shaped([na], lons) && LonsPaired([na], lons);
    assert forall i :: 0 <= i < |na| ==> lons[0][i] == [];
    assert LonsLocal([na], lons);
  }

  /** The rings `ters`, `airs` built so far, for the first |ters| entries of
      `sizes`, with `lons` their "lon" lists. */
  ghost predicate Built(ters: seq<seq<Matter>>, airs: seq<seq<Matter>>, lons: seq<seq<seq<Matter>>>, sizes: seq<nat>)
    reads AllOf(ters)`under, AllOf(ters)`lat, AllOf(ters)`lon
    reads AllOf(airs)`under, AllOf(airs)`lat, AllOf(airs)`lon
  {
    MeshShape(ters, airs, sizes) && MeshCells(ters, airs) && MeshBare(ters) && MeshLats(airs) &&
    LonsMatch(airs, lons) && LonsFit(airs, lons)
  }

  /** One turn of the loop of lines 99-141: ring number |ters|, of
      `sizes[|ters|]` cells, built and linked "lon" to the ring before it,
      `l2`, if it is not at the pole. */
  method AddRing(ters: seq<seq<Matter>>, airs: seq<seq<Matter>>, sizes: seq<nat>, l2: seq<Matter>,
                 ghost lons: seq<seq<seq<Matter>>>)
    returns (nt: seq<Matter>, na: seq<Matter>, ghost lons': seq<seq<seq<Matter>>>)
    requires |ters| < |sizes| && sizes[|ters|] >= 1 && Built(ters, airs, lons, sizes)
    requires |airs| > 0 ==> l2 == airs[|airs| - 1]
    modifies l2`lon
    ensures |nt| == sizes[|ters|] && |na| == |nt|
    ensures (forall i :: 0 <= i < |nt| ==> fresh(nt[i])) && forall i :: 0 <= i < |na| ==> fresh(na[i])
    ensures (forall i :: 0 <= i < |nt| ==> Blank(nt[i])) && forall i :: 0 <= i < |na| ==> Blank(na[i])
    ensures Built(ters + [nt], airs + [na], lons', sizes)
  {
    var k := |ters|;
    var phi := Phi(k);
    nt, na := BuildRing(sizes[k], k);
    assert Apart(ters, airs, nt, na);
    if phi != 0.0 {
      lons' := ExtendLinked(ters, airs, nt, na, l2, lons);
    } else {
      FirstRing(ters, airs, nt, na);
      lons' := [Lons(na)];
    }
    DistinctGrow(ters, airs, nt, na);
    ShapeGrow(ters, airs, nt, na, sizes);
  }

  /** The ring at the pole, `nt` and `na`, makes a mesh of one ring. */
  lemma FirstRing(ters: seq<seq<Matter>>, airs: seq<seq<Matter>>, nt: seq<Matter>, na: seq<Matter>)
    requires ters == [] && airs == [] && |nt| >= 1
    requires RingCells(nt, na, |nt|, Phi(0)) && LatLinks(na, false)
    ensures MeshCells(ters + [nt], airs + [na]) && MeshBare(ters + [nt]) && MeshLats(airs + [na])
    ensures LonsMatch(airs + [na], [Lons(na)]) && LonsFit(airs + [na], [Lons(na)])
  {
    NewRingKept(ters, airs, nt, na, false);
    assert airs + [na] == [na];
    FirstLons(na);
  }

  /** The rings so far and a new ring of the next size match `sizes`. */
  lemma ShapeGrow(ters: seq<seq<Matter>>, airs: seq<seq<Matter>>, nt: seq<Matter>, na: seq<Matter>, sizes: seq<nat>)
    requires MeshShape(ters, airs, sizes) && |ters| < |sizes| && |nt| == sizes[|ters|] >= 1
    requires Distinct(ters + [nt], airs + [na])
    ensures MeshShape(ters + [nt], airs + [na], sizes)
  {
    var t2: seq<seq<Matter>> := ters + [nt];
    forall k | 0 <= k < |t2| ensures |t2[k]| == sizes[k] >= 1 {
      if k < |ters| {
        assert t2[k] == ters[k];
      }
    }
  }

  /** Lines 99-141: one ring per entry of `sizes`, ring `k` at latitude
      Phi(k) with `sizes[k]` cells, each ring after the first linked "lon" to
      the ring before it. `lons` is the "lon" list of every air cell. Every
      cell is new and has heat 0. */
  method BuildMesh(sizes: seq<nat>)
    returns (ters: seq<seq<Matter>>, airs: seq<seq<Matter>>, ghost lons: seq<seq<seq<Matter>>>)
    requires forall k :: 0 <= k < |sizes| ==> sizes[k] >= 1
    ensures |ters| == |sizes| && Built(ters, airs, lons, sizes)
    ensures forall k, i :: 0 <= k < |ters| && 0 <= i < |ters[k]| ==> ters[k][i].heat == 0.0
    ensures forall k, i :: 0 <= k < |airs| && 0 <= i < |airs[k]| ==> airs[k][i].heat == 0.0
    ensures forall k, i :: 0 <= k < |ters| && 0 <= i < |ters[k]| ==> fresh(ters[k][i])
    ensures forall k, i :: 0 <= k < |airs| && 0 <= i < |airs[k]| ==> fresh(airs[k][i])
  {
    ters, airs, lons := [], [], [];
    while |ters| < |sizes|
      invariant Built(ters, airs, lons, sizes)
      invariant forall k, i :: 0 <= k < |ters| && 0 <= i < |ters[k]| ==> ters[k][i].heat == 0.0
      invariant forall k, i :: 0 <= k < |airs| && 0 <= i < |airs[k]| ==> airs[k][i].heat == 0.0
      invariant forall k, i :: 0 <= k < |ters| && 0 <= i < |ters[k]| ==> fresh(ters[k][i])
      invariant forall k, i :: 0 <= k < |airs| && 0 <= i < |airs[k]| ==> fresh(airs[k][i])
      decreases |sizes| - |ters|
    {
      var nt, na;
      nt, na, lons := AddColdRing(ters, airs, sizes, lons);
      forall k, i | 0 <= k < |ters| + 1 && 0 <= i < |(ters + [nt])[k]| ensures fresh((ters + [nt])[k][i]) {
        if k < |ters| {
          assert (ters + [nt])[k] == ters[k];
        }
      }
      forall k, i | 0 <= k < |airs| + 1 && 0 <= i < |(airs + [na])[k]| ensures fresh((airs + [na])[k][i]) {
        if k < |airs| {
          assert (airs + [na])[k] == airs[k];
        }
      }
      ters, airs := ters + [nt], airs + [na];
    }
  }

  /** One turn of the loop of lines 99-141 seen from the heat side: the new
      cells start with heat 0 and linking them leaves the heat of the cells
      before them at 0. */
  method AddColdRing(ters: seq<seq<Matter>>, airs: seq<seq<Matter>>, sizes: seq<nat>,
                      ghost lons: seq<seq<seq<Matter>>>)
    returns (nt: seq<Matter>, na: seq<Matter>, ghost lons': seq<seq<seq<Matter>>>)
    requires |ters| < |sizes| && sizes[|ters|] >= 1 && Built(ters, airs, lons, sizes)
    requires forall k, i :: 0 <= k < |ters| && 0 <= i < |ters[k]| ==> ters[k][i].heat == 0.0
    requires forall k, i :: 0 <= k < |airs| && 0 <= i < |airs[k]| ==> airs[k][i].heat == 0.0
    modifies if |airs| > 0 then airs[|airs| - 1] else []`lon
    ensures |nt| == sizes[|ters|] && |na| == |nt|
    ensures (forall i :: 0 <= i < |nt| ==> fresh(nt[i])) && forall i :: 0 <= i < |na| ==> fresh(na[i])
    ensures Built(ters + [nt], airs + [na], lons', sizes)
    ensures forall k, i :: 0 <= k < |ters| + 1 && 0 <= i < |(ters + [nt])[k]| ==> (ters + [nt])[k][i].heat == 0.0
    ensures forall k, i :: 0 <= k < |airs| + 1 && 0 <= i < |(airs + [na])[k]| ==> (airs + [na])[k][i].heat == 0.0
  {
    var l2 := if |airs| > 0 then airs[|airs| - 1] else [];
    nt, na, lons' := AddRing(ters, airs, sizes, l2, lons);
    ColdGrow(ters, nt);
    ColdGrow(airs, na);
  }

  /** A ring of cells with heat 0 added to rings of such cells. */
  lemma ColdGrow(rs: seq<seq<Matter>>, r: seq<Matter>)
    requires forall k, i :: 0 <= k < |rs| && 0 <= i < |rs[k]| ==> rs[k][i].heat == 0.0
    requires forall i :: 0 <= i < |r| ==> r[i].heat == 0.0
    ensures forall k, i :: 0 <= k < |rs| + 1 && 0 <= i < |(rs + [r])[k]| ==> (rs + [r])[k][i].heat == 0.0
  {
    forall k, i | 0 <= k < |rs| + 1 && 0 <= i < |(rs + [r])[k]| ensures (rs + [r])[k][i].heat == 0.0 {
      if k < |rs| {
        assert (rs + [r])[k] == rs[k];
      }
    }
  }
}
