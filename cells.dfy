/** The thermal cells of the simulator: one class `Matter` for both terrain
    and air cells, told apart by a constant `kind`, with the per-step heat
    operations (compute the conductable share, conduct it, dissipate,
    illuminate) and the symmetric, duplicate-free linking of air cells. */
module Cells {

  datatype Material = Land | Water

  /** What a cell is: a terrain cell of some material, or the air cell above one. */
  datatype Kind = TerrainCell(material: Material) | AirCell

  /** The two named link lists of a cell: same ring ("lat") and neighbouring
      ring ("lon"). */
  datatype Dir = Lat | Lon {
    function Other(): Dir {
      match this
      case Lat => Lon
      case Lon => Lat
    }
  }

  /** Fraction of its heat a cell without a cell under it loses per step. */
  const DISSIPATE: real := 0.05

  function Reflectivity(m: Material): real {
    match m
    case Land => 0.2
    case Water => 0.5
  }

  function Conductivity(m: Material): real {
    match m
    case Land => 0.75
    case Water => 0.45
  }

  /** Heat a terrain cell of material `m` keeps out of `amount` of sunlight. */
  function Absorbed(amount: real, m: Material): (r: real)
    ensures m == Land ==> r == 0.8 * amount
    ensures m == Water ==> r == 0.5 * amount
    ensures amount >= 0.0 ==> 0.0 <= r <= amount
    ensures amount <= 0.0 ==> amount <= r <= 0.0
  {
    amount * (1.0 - Reflectivity(m))
  }

  /** `s` with `x` appended unless it is already there: what `link` does to
      one link list. */
  function Added(s: seq<Matter>, x: Matter): (r: seq<Matter>)
    ensures |r| == if x in s then |s| else |s| + 1
    ensures x in r && r[..|s|] == s
    ensures NoDup(s) ==> NoDup(r)
  {
    if x in s then s else s + [x]
  }

  /** Adding an element that is already present changes nothing, so linking
      the same pair twice is the same as linking it once. */
  lemma AddedIdempotent(s: seq<Matter>, x: Matter)
    ensures Added(Added(s, x), x) == Added(s, x)
  {
  }

  /** No cell occurs twice. */
  ghost predicate NoDup(s: seq<Matter>) {
    forall p, q :: 0 <= p < |s| && 0 <= q < |s| && p != q ==> s[p] != s[q]
  }

  function Sum(s: seq<real>): real {
    if s == [] then 0.0 else s[0] + Sum(s[1..])
  }

  /** Adding the same amount `d` to each of `k` values adds `k * d` to their sum. */
  lemma {:induction false} SumShift(a: seq<real>, b: seq<real>, d: real)
    requires |a| == |b|
    requires forall i :: 0 <= i < |a| ==> b[i] == a[i] + d
    ensures Sum(b) == Sum(a) + (|a| as real) * d
  {
    if a != [] {
      SumShift(a[1..], b[1..], d);
    }
  }

  /** `k` equal shares of `c` add up to `c`. */
  lemma SharesAddUp(c: real, k: nat, share: real)
    requires k > 0 && share == c / (k as real)
    ensures (k as real) * share == c
  {
  }

  /** Conduction moves heat without creating or destroying it: when each of
      `k` distinct targets gains a `k`th of `c`, their total grows by exactly
      the `c` their source gives up. */
  lemma ConductionConserves(before: seq<real>, after: seq<real>, c: real, share: real)
    requires |before| == |after| > 0
    requires share == c / (|before| as real)
    requires forall j :: 0 <= j < |before| ==> after[j] == before[j] + share
    ensures Sum(after) == Sum(before) + c
  {
    SumShift(before, after, share);
    SharesAddUp(c, |before|, share);
  }

  /** The heat values of a list of cells, in order. */
  function Heats(cs: seq<Matter>): (hs: seq<real>)
    reads cs
    ensures |hs| == |cs|
    ensures forall i :: 0 <= i < |cs| ==> hs[i] == cs[i].heat
  {
    if cs == [] then [] else [cs[0].heat] + Heats(cs[1..])
  }

  /** What `x` receives when every entry of `s` in turn receives `d`: `d` for
      each occurrence of `x` in `s`. */
  function Gained(s: seq<Matter>, x: Matter, d: real): real {
    if s == [] then 0.0 else Gained(s[..|s| - 1], x, d) + (if s[|s| - 1] == x then d else 0.0)
  }

  /** A cell that does not occur receives nothing. */
  lemma {:induction false} GainedAbsent(s: seq<Matter>, x: Matter, d: real)
    requires x !in s
    ensures Gained(s, x, d) == 0.0
  {
    if s != [] {
      GainedAbsent(s[..|s| - 1], x, d);
    }
  }

  /** A cell that occurs exactly once receives exactly one share. */
  lemma {:induction false} GainedOnce(s: seq<Matter>, x: Matter, d: real)
    requires NoDup(s) && x in s
    ensures Gained(s, x, d) == d
  {
    var p, y := s[..|s| - 1], s[|s| - 1];
    assert s == p + [y];
    if y == x {
      GainedAbsent(p, x, d);
    } else {
      GainedOnce(p, x, d);
    }
  }

  /** Nothing is received when the share is zero. */
  lemma {:induction false} GainedNothing(s: seq<Matter>, x: Matter)
    ensures Gained(s, x, 0.0) == 0.0
  {
    if s != [] {
      GainedNothing(s[..|s| - 1], x);
    }
  }

  /** A terrain or air cell. */
  class Matter {
    var heat: real
    /** The air cell above a terrain cell; `null` for air cells. */
    var under: Matter?
    /** The terrain cell an air cell sits on; `null` for terrain cells. */
    const ontopof: Matter?
    /** Scratch values of the two-phase conduction step. */
    var conductableHeat: real
    var conductTo: seq<Matter>
    const dissipate: real
    var lat: seq<Matter>
    var lon: seq<Matter>

    const kind: Kind
    const theta: real
    const phi: real
    const conduct: real

    function Links(d: Dir): seq<Matter>
      reads this
    {
      match d
      case Lat => lat
      case Lon => lon
    }

    /** A fresh terrain cell at (theta, phi), with nothing above it yet. */
    constructor Terrain(theta: real, phi: real, t: Material)
      ensures kind == TerrainCell(t) && this.theta == theta && this.phi == phi
      ensures conduct == Conductivity(t) && dissipate == DISSIPATE
      ensures heat == 0.0 && under == null && ontopof == null
      ensures conductableHeat == 0.0 && conductTo == []
      ensures lat == [] && lon == []
    {
      kind, this.theta, this.phi := TerrainCell(t), theta, phi;
      conduct, dissipate := Conductivity(t), DISSIPATE;
      heat, under, ontopof := 0.0, null, null;
      conductableHeat, conductTo := 0.0, [];
      lat, lon := [], [];
    }

    /** A fresh air cell on top of `ontopof`, which from now on has it as the
        cell under it. */
    constructor Air(ontopof: Matter)
      modifies ontopof`under
      ensures ontopof.under == this
      ensures kind == AirCell && this.ontopof == ontopof
      ensures theta == ontopof.theta && phi == ontopof.phi
      ensures conduct == 0.0 && dissipate == DISSIPATE
      ensures heat == 0.0 && under == null
      ensures conductableHeat == 0.0 && conductTo == []
      ensures lat == [] && lon == []
    {
      kind, this.ontopof := AirCell, ontopof;
      theta, phi := ontopof.theta, ontopof.phi;
      conduct, dissipate := 0.0, DISSIPATE;
      heat, under := 0.0, null;
      conductableHeat, conductTo := 0.0, [];
      lat, lon := [], [];
      new;
      ontopof.under := this;
    }

    /** First phase of conduction: the heat that will leave this cell and the
        cells it goes to, its linked cells and then the cell under it. */
    method CalcConductable()
      modifies this`conductableHeat, this`conductTo
      ensures conductableHeat == heat * conduct
      ensures conductTo == lat + lon + (if under != null then [under] else [])
    {
      conductableHeat := heat * conduct;
      conductTo := lat + lon;
      if under != null {
        conductTo := conductTo + [under];
      }
    }

    /** The equal part of `conductableHeat` each entry of `conductTo` receives. */
    function Share(): (r: real)
      reads this
      ensures conductTo != [] ==> r * (|conductTo| as real) == conductableHeat
      ensures conductTo == [] ==> r == 0.0
    {
      if conductTo == [] then 0.0 else conductableHeat / (|conductTo| as real)
    }

    /** Second phase of conduction: every entry of `conductTo` gains an equal
        share of `conductableHeat` (a cell listed twice gains twice), then this
        cell loses all of it. When the targets are distinct and do not include
        this cell, the total heat of the cell and its targets is unchanged. */
    method ConductHeat()
      modifies conductTo`heat, this`heat
      ensures conductTo == old(conductTo) && conductableHeat == old(conductableHeat)
      ensures forall x :: x in old(conductTo) && x != this ==>
        x.heat == old(x.heat) + Gained(conductTo, x, Share())
      ensures heat == old(heat) + Gained(conductTo, this, Share()) - conductableHeat
      ensures NoDup(conductTo) && this !in conductTo && conductTo != [] ==>
        Sum(Heats(conductTo)) + heat == old(Sum(Heats(conductTo)) + heat)
    {
      var targets, c := conductTo, conductableHeat;
      ghost var share := Share();
      ghost var before := Heats(targets);
      if targets != [] {
        GiveEach(targets, c / (|targets| as real));
      }
      if this !in targets {
        GainedAbsent(targets, this, share);
      }
      ghost var mid := Heats(targets);
      heat := heat - c;
      if NoDup(targets) && this !in targets && targets != [] {
        ConductionConserves(before, mid, c, share);
        assert Heats(targets) == mid;
      }
    }

    /** Loses the fraction `dissipate` of its heat, if and only if there is no
        cell under it. */
    method DissipateHeat()
      modifies this`heat
      ensures under == null ==> heat == old(heat) * (1.0 - dissipate)
      ensures under != null ==> heat == old(heat)
    {
      if under == null {
        heat := heat * (1.0 - dissipate);
      }
    }

    /** A terrain cell keeps the part of `amount` its material does not reflect. */
    method Illuminate(amount: real)
      requires kind.TerrainCell?
      modifies this`heat
      ensures heat == old(heat) + Absorbed(amount, kind.material)
    {
      heat := heat + amount * (1.0 - Reflectivity(kind.material));
    }

    /** Links this air cell and `airmass` in direction `d`, both ways and
        without duplicates; the other direction is untouched. */
    method Link(airmass: Matter, d: Dir)
      requires kind.AirCell?
      modifies (if d == Lat then {this, airmass} else {})`lat
      modifies (if d == Lon then {this, airmass} else {})`lon
      ensures airmass in Links(d) && this in airmass.Links(d)
      ensures Links(d) == Added(old(Links(d)), airmass)
      ensures airmass != this ==> airmass.Links(d) == Added(old(airmass.Links(d)), this)
      ensures Links(d.Other()) == old(Links(d.Other()))
      ensures airmass.Links(d.Other()) == old(airmass.Links(d.Other()))
    {
      if airmass !in Links(d) {
        if d == Lat { lat := lat + [airmass]; } else { lon := lon + [airmass]; }
      }
      if this !in airmass.Links(d) {
        if d == Lat { airmass.lat := airmass.lat + [this]; } else { airmass.lon := airmass.lon + [this]; }
      }
    }
  }

  /** The loop of the second conduction phase: each entry of `targets` in
      turn gains `amount`, so a cell gains `amount` once per occurrence. */
  method GiveEach(targets: seq<Matter>, amount: real)
    modifies targets`heat
    ensures forall x :: x in targets ==> x.heat == old(x.heat) + Gained(targets, x, amount)
    ensures NoDup(targets) ==>
      forall j :: 0 <= j < |targets| ==> Heats(targets)[j] == old(Heats(targets))[j] + amount
  {
    var i := 0;
    while i < |targets|
      invariant 0 <= i <= |targets|
      invariant forall x :: x in targets ==>
        x.heat == old(x.heat) + Gained(targets[..i], x, amount)
    {
      var item := targets[i];
      assert targets[..i + 1][..i] == targets[..i];
      item.heat := item.heat + amount;
      i := i + 1;
    }
    assert targets[..i] == targets;
    if NoDup(targets) {
      forall j | 0 <= j < |targets|
        ensures Heats(targets)[j] == old(Heats(targets))[j] + amount
      {
        GainedOnce(targets, targets[j], amount);
      }
    }
  }
}
