/** The simulation proper (lines 144-208 of main.py): the flat lists of
    terrain and air cells built from the rings, and one pass of the main loop,
    which conducts heat from every terrain cell into the air above it, lets the
    air cells conduct (nothing, as air does not conduct), dissipates air heat
    and lets the sun warm the terrain. */
module Simulation {
  import opened Numerics
  import opened Cells
  import opened Mesh
  import opened Sphere
  import opened SunModel

  /** Terrain cell `t` has no links and has the air cell `a` on top of it,
      which has nothing under it, does not conduct and links only cells of `air`. */
  ghost predicate Stacked(t: Matter, a: Matter, air: seq<Matter>)
    reads t`under, t`lat, t`lon, a`under, a`lat, a`lon
  {
    t.kind.TerrainCell? && t.ontopof == null && t.lat == [] && t.lon == [] && t.under == a &&
    a.kind == AirCell && a.ontopof == t && a.under == null && a.conduct == 0.0 && a.dissipate == DISSIPATE &&
    (forall p :: 0 <= p < |a.lat| ==> a.lat[p] in air) && (forall p :: 0 <= p < |a.lon| ==> a.lon[p] in air)
  }

  /** ALL_TER and ALL_AIR as the main loop finds them: distinct cells, the
      air cell at each position on top of the terrain cell at that position. */
  ghost predicate Layered(ter: seq<Matter>, air: seq<Matter>)
    reads ter`under, ter`lat, ter`lon, air`under, air`lat, air`lon
  {
    |ter| == |air| && NoDup(ter + air) &&
    forall j :: 0 <= j < |ter| ==> Stacked(ter[j], air[j], air)
  }

  /** The flat lists of a finished mesh are layered. */
  lemma MeshLayered(ters: seq<seq<Matter>>, airs: seq<seq<Matter>>, lons: seq<seq<seq<Matter>>>,
                    sizes: seq<nat>)
    requires Built(ters, airs, lons, sizes)
    ensures Layered(Flatten(ters), Flatten(airs))
  {
    var ter, air := Flatten(ters), Flatten(airs);
    FlattenDistinct(ters, airs);
    FlattenSameLength(ters, airs);
    forall j | 0 <= j < |ter| ensures Stacked(ter[j], air[j], air) {
      var k, i := FlattenAt(ters, airs, j);
      assert RingShape(ters[k], airs[k], |ters[k]|, Phi(k));
      assert Bare(ters[k][i]);
      var a := airs[k][i];
      forall p | 0 <= p < |a.lat| ensures a.lat[p] in air {
        assert LatLinks(airs[k], k != 0);
        var c := a.lat[p];
        var x :| 0 <= x < |airs[k]| && airs[k][x] == c;
        FlattenHas(airs, k, x);
      }
      forall p | 0 <= p < |a.lon| ensures a.lon[p] in air {
        var c := a.lon[p];
        assert c == lons[k][i][p];
        if k > 0 && c in airs[k - 1] {
          var x :| 0 <= x < |airs[k - 1]| && airs[k - 1][x] == c;
          FlattenHas(airs, k - 1, x);
        } else {
          var x :| 0 <= x < |airs[k + 1]| && airs[k + 1][x] == c;
          FlattenHas(airs, k + 1, x);
        }
      }
    }
  }

  /** Lines 99-145: the rings for the given sizes and their flat lists
      ALL_TER and ALL_AIR, ready for the main loop: new cells, all at heat 0. */
  method Setup(sizes: seq<nat>)
    returns (ters: seq<seq<Matter>>, airs: seq<seq<Matter>>, ter: seq<Matter>, air: seq<Matter>,
             ghost lons: seq<seq<seq<Matter>>>)
    requires forall k :: 0 <= k < |sizes| ==> sizes[k] >= 1
    ensures |ters| == |sizes| && Built(ters, airs, lons, sizes)
    ensures ter == Flatten(ters) && air == Flatten(airs)
    ensures Layered(ter, air)
    ensures (forall j :: 0 <= j < |ter| ==> fresh(ter[j])) && forall j :: 0 <= j < |air| ==> fresh(air[j])
    ensures (forall j :: 0 <= j < |ter| ==> ter[j].heat == 0.0) && forall j :: 0 <= j < |air| ==> air[j].heat == 0.0
  {
    ters, airs, lons := BuildMesh(sizes);
    ter, air := Flatten(ters), Flatten(airs);
    MeshLayered(ters, airs, lons, sizes);
    forall j | 0 <= j < |ter| ensures fresh(ter[j]) && ter[j].heat == 0.0 {
      var k, i := FlattenFrom(ters, ter[j]);
    }
    forall j | 0 <= j < |air| ensures fresh(air[j]) && air[j].heat == 0.0 {
      var k, i := FlattenFrom(airs, air[j]);
    }
  }

  /** Lines 195-196 for one terrain cell `t` linked to nothing: its only
      conduction target is the air cell `a` on top of it, which gains exactly
      what `t` loses. */
  method ConductDown(t: Matter, a: Matter)
    requires t.lat == [] && t.lon == [] && t.under == a && a != t
    modifies t`conductableHeat, t`conductTo, t`heat, a`heat
    ensures t.heat == Kept(t, old(t.heat))
    ensures a.heat == Warmed(t, old(t.heat), old(a.heat))
    ensures t.conductableHeat == Given(t, old(t.heat)) && t.conductTo == [a]
  {
    t.CalcConductable();
    assert t.conductTo == [a];
    t.ConductHeat();
    assert Gained([a], a, t.Share()) == t.Share();
    assert Gained([a], t, t.Share()) == 0.0;
  }

  /** Lines 194-196: each terrain cell in turn conducts the share `conduct` of
      its heat into the air cell on top of it. */
  method TerrainConduct(ter: seq<Matter>, air: seq<Matter>)
    requires Layered(ter, air)
    modifies ter`conductableHeat, ter`conductTo, ter`heat, air`heat
    ensures Layered(ter, air)
    ensures forall j :: 0 <= j < |ter| ==> ter[j].heat == Kept(ter[j], old(ter[j].heat))
    ensures forall j :: 0 <= j < |air| ==> air[j].heat == Warmed(ter[j], old(ter[j].heat), old(air[j].heat))
    ensures forall j :: 0 <= j < |ter| ==>
      ter[j].conductableHeat == Given(ter[j], old(ter[j].heat)) && ter[j].conductTo == [air[j]]
  {
    NoDupSplit(ter, air);
    var i := 0;
    while i < |ter|
      invariant 0 <= i <= |ter| && Layered(ter, air)
      invariant forall j :: 0 <= j < |ter| ==>
        ter[j].heat == if j < i then Kept(ter[j], old(ter[j].heat)) else old(ter[j].heat)
      invariant forall j :: 0 <= j < |air| ==>
        air[j].heat == if j < i then Warmed(ter[j], old(ter[j].heat), old(air[j].heat)) else old(air[j].heat)
      invariant forall j :: 0 <= j < i ==>
        ter[j].conductableHeat == Given(ter[j], old(ter[j].heat)) && ter[j].conductTo == [air[j]]
    {
      assert Stacked(ter[i], air[i], air);
      ConductDown(ter[i], air[i]);
      i := i + 1;
    }
  }

  /** Lines 198-199: every air cell computes its conductable heat, none as
      air does not conduct, and its targets, the cells it is linked to. */
  method AirCompute(air: seq<Matter>)
    requires forall j :: 0 <= j < |air| ==> air[j].under == null && air[j].conduct == 0.0
    modifies air`conductableHeat, air`conductTo
    ensures forall j :: 0 <= j < |air| ==>
      air[j].conductableHeat == 0.0 && air[j].conductTo == air[j].lat + air[j].lon
  {
    var i := 0;
    while i < |air|
      invariant 0 <= i <= |air|
      invariant forall j :: 0 <= j < i ==>
        air[j].conductableHeat == 0.0 && air[j].conductTo == air[j].lat + air[j].lon
    {
      air[i].CalcConductable();
      i := i + 1;
    }
  }

  /** Lines 201-202: every air cell conducts its conductable heat to its
      targets, all of them air cells; as that heat is zero, no heat changes. */
  method AirConduct(air: seq<Matter>)
    requires forall j :: 0 <= j < |air| ==> air[j].conductableHeat == 0.0
    requires forall j, p :: 0 <= j < |air| && 0 <= p < |air[j].conductTo| ==> air[j].conductTo[p] in air
    modifies air`heat
    ensures forall j :: 0 <= j < |air| ==> air[j].heat == old(air[j].heat)
  {
    var i := 0;
    while i < |air|
      invariant 0 <= i <= |air|
      invariant forall j :: 0 <= j < |air| ==> air[j].conductableHeat == 0.0
      invariant forall j, p :: 0 <= j < |air| && 0 <= p < |air[j].conductTo| ==> air[j].conductTo[p] in air
      invariant forall j :: 0 <= j < |air| ==> air[j].heat == old(air[j].heat)
    {
      var a := air[i];
      assert a.Share() == 0.0;
      a.ConductHeat();
      forall x | x in a.conductTo ensures Gained(a.conductTo, x, 0.0) == 0.0 {
        GainedNothing(a.conductTo, x);
      }
      GainedNothing(a.conductTo, a);
      i := i + 1;
    }
  }

  /** Lines 204-205: every air cell, having nothing under it, keeps the
      fraction 1 - dissipate of its heat. */
  method AirDissipate(air: seq<Matter>)
    requires NoDup(air) && forall j :: 0 <= j < |air| ==> air[j].under == null
    modifies air`heat
    ensures forall j :: 0 <= j < |air| ==> air[j].heat == old(air[j].heat) * (1.0 - air[j].dissipate)
  {
    var i := 0;
    while i < |air|
      invariant 0 <= i <= |air|
      invariant forall j :: 0 <= j < |air| ==>
        air[j].heat == if j < i then old(air[j].heat) * (1.0 - air[j].dissipate) else old(air[j].heat)
    {
      air[i].DissipateHeat();
      i := i + 1;
    }
  }

  /** Lines 198-205: the air cells compute, conduct and dissipate; only the
      dissipation changes their heat, by the factor 1 - DISSIPATE. */
  method AirPass(ter: seq<Matter>, air: seq<Matter>)
    requires Layered(ter, air)
    modifies air`conductableHeat, air`conductTo, air`heat
    ensures Layered(ter, air)
    ensures forall j :: 0 <= j < |air| ==> air[j].heat == old(air[j].heat) * (1.0 - DISSIPATE)
    ensures forall j :: 0 <= j < |air| ==>
      air[j].conductableHeat == 0.0 && air[j].conductTo == air[j].lat + air[j].lon
  {
    NoDupSplit(ter, air);
    assert forall j :: 0 <= j < |air| ==> Stacked(ter[j], air[j], air);
    AirShare(air);
    AirDissipate(air);
  }

  /** Lines 198-202: the air cells compute and conduct; as none of them
      conducts, no heat changes. */
  method AirShare(air: seq<Matter>)
    requires forall j :: 0 <= j < |air| ==> air[j].under == null && air[j].conduct == 0.0
    requires forall j, p :: 0 <= j < |air| && 0 <= p < |air[j].lat| ==> air[j].lat[p] in air
    requires forall j, p :: 0 <= j < |air| && 0 <= p < |air[j].lon| ==> air[j].lon[p] in air
    modifies air`conductableHeat, air`conductTo, air`heat
    ensures forall j :: 0 <= j < |air| ==> air[j].heat == old(air[j].heat)
    ensures forall j :: 0 <= j < |air| ==>
      air[j].conductableHeat == 0.0 && air[j].conductTo == air[j].lat + air[j].lon
  {
    AirCompute(air);
    AirConduct(air);
  }

  /** One pass of the main loop without the drawing (lines 194-208): after
      it each terrain cell has lost the share `conduct` of its heat to the air
      cell on top of it and gained its sunlight if it faces the sun; each air
      cell has gained that heat and then lost the fraction DISSIPATE of it;
      the sun has moved on. The layout is unchanged. */
  method Tick(ter: seq<Matter>, air: seq<Matter>, sun: Sun, cos: real -> real, sin: real -> real)
    returns (ghost warmed: seq<real>)
    requires Layered(ter, air)
    modifies ter`conductableHeat, ter`conductTo, ter`heat, air`conductableHeat, air`conductTo, air`heat
    modifies sun`time
    ensures Layered(ter, air)
    ensures sun.time == PhaseAdvance(old(sun.time))
    ensures forall j :: 0 <= j < |ter| ==>
      ter[j].heat == TerrainHeat(ter[j], old(ter[j].heat), sun.heat, old(sun.time), cos, sin)
    ensures |warmed| == |air|
    ensures forall j :: 0 <= j < |air| ==> warmed[j] == Warmed(ter[j], old(ter[j].heat), old(air[j].heat))
    ensures forall j :: 0 <= j < |air| ==> air[j].heat == Cooled(warmed[j])
    ensures forall j :: 0 <= j < |ter| ==>
      ter[j].conductableHeat == Given(ter[j], old(ter[j].heat)) && ter[j].conductTo == [air[j]]
    ensures forall j :: 0 <= j < |air| ==>
      air[j].conductableHeat == 0.0 && air[j].conductTo == air[j].lat + air[j].lon
  {
    warmed := HeatPass(ter, air);
    label Passed:
    SunPass(ter, air, sun, cos, sin);
    forall j | 0 <= j < |ter|
      ensures ter[j].heat == TerrainHeat(ter[j], old(ter[j].heat), sun.heat, old(sun.time), cos, sin)
    {
      assert ter[j].heat == old@Passed(ter[j].heat) +
        (if Lit(ter[j].theta, old(sun.time)) then Sunlight(ter[j], sun.heat, old(sun.time), cos, sin) else 0.0);
    }
    assert forall j :: 0 <= j < |air| ==> air[j].heat == old@Passed(air[j].heat);
  }

  /** Lines 194-205: the terrain cells give the share `conduct` of their heat
      to the air above them, then the air cells conduct among themselves and
      dissipate. */
  method HeatPass(ter: seq<Matter>, air: seq<Matter>) returns (ghost warmed: seq<real>)
    requires Layered(ter, air)
    modifies ter`conductableHeat, ter`conductTo, ter`heat, air`conductableHeat, air`conductTo, air`heat
    ensures Layered(ter, air)
    ensures forall j :: 0 <= j < |ter| ==> ter[j].heat == Kept(ter[j], old(ter[j].heat))
    ensures |warmed| == |air|
    ensures forall j :: 0 <= j < |air| ==> warmed[j] == Warmed(ter[j], old(ter[j].heat), old(air[j].heat))
    ensures forall j :: 0 <= j < |air| ==> air[j].heat == Cooled(warmed[j])
    ensures forall j :: 0 <= j < |ter| ==>
      ter[j].conductableHeat == Given(ter[j], old(ter[j].heat)) && ter[j].conductTo == [air[j]]
    ensures forall j :: 0 <= j < |air| ==>
      air[j].conductableHeat == 0.0 && air[j].conductTo == air[j].lat + air[j].lon
  {
    TerrainConduct(ter, air);
    label Conducted:
    NoDupSplit(ter, air);
    warmed := Heats(air);
    assert forall j :: 0 <= j < |ter| ==> ter[j] !in air;
    AirPass(ter, air);
    assert forall j :: 0 <= j < |ter| ==> ter[j].heat == old@Conducted(ter[j].heat);
  }

  /** Line 208: the sun warms the terrain cells facing it, each once, and
      moves on; the air cells are untouched. */
  method SunPass(ter: seq<Matter>, air: seq<Matter>, sun: Sun, cos: real -> real, sin: real -> real)
    requires Layered(ter, air)
    modifies ter`heat, sun`time
    ensures Layered(ter, air)
    ensures sun.time == PhaseAdvance(old(sun.time))
    ensures forall j :: 0 <= j < |ter| ==>
      ter[j].heat == old(ter[j].heat) +
        (if Lit(ter[j].theta, old(sun.time)) then Sunlight(ter[j], sun.heat, old(sun.time), cos, sin) else 0.0)
    ensures forall j :: 0 <= j < |air| ==> air[j].heat == old(air[j].heat)
  {
    NoDupSplit(ter, air);
    ghost var time := sun.time;
    assert forall j :: 0 <= j < |air| ==> air[j] !in ter;
    sun.WarmTer(ter, cos, sin);
    forall j | 0 <= j < |ter|
      ensures ter[j].heat == old(ter[j].heat) +
        (if Lit(ter[j].theta, time) then Sunlight(ter[j], sun.heat, time, cos, sin) else 0.0)
    {
      LitGained(ter, time, ter[j], Sunlight(ter[j], sun.heat, time, cos, sin));
    }
  }

  /** The heat of every terrain cell and of every air cell, position by
      position as in ALL_TER and ALL_AIR. */
  datatype Climate = Climate(terrain: seq<real>, air: seq<real>)

  /** The terrain heats after one tick from heats `th` with the sun at angle
      `time`: each cell keeps `1 - conduct` of its heat and, if it faces the
      sun, gains its sunlight. */
  function TerrainAfter(ter: seq<Matter>, th: seq<real>, time: real, cos: real -> real, sin: real -> real): seq<real>
    requires |th| == |ter| && forall j :: 0 <= j < |ter| ==> ter[j].kind.TerrainCell?
  {
    seq(|ter|, j requires 0 <= j < |ter| => TerrainHeat(ter[j], th[j], SUN_HEAT, time, cos, sin))
  }

  /** Terrain cell `t` after one tick from heat `h`. */
  function TerrainHeat(t: Matter, h: real, sunHeat: real, time: real, cos: real -> real, sin: real -> real): real
    requires t.kind.TerrainCell?
  {
    Kept(t, h) + (if Lit(t.theta, time) then Sunlight(t, sunHeat, time, cos, sin) else 0.0)
  }

  /** Air cell on top of terrain cell `t` after one tick from air heat `a`
      over terrain heat `h`. */
  function AirHeat(t: Matter, h: real, a: real): real {
    Cooled(Warmed(t, h, a))
  }

  /** Heat `h` of terrain cell `t` after it conducts. */
  function Kept(t: Matter, h: real): real {
    h - h * t.conduct
  }

  /** What terrain cell `t` conducts from heat `h`. */
  function Given(t: Matter, h: real): real {
    h * t.conduct
  }

  /** Air heat `a` after the terrain cell `t` under it conducts from heat `h`. */
  function Warmed(t: Matter, h: real, a: real): real {
    a + h * t.conduct
  }

  /** Terrain conduction moves heat and creates none: the heats `kept` the
      terrain cells keep and the heats `warmed` of the air cells above them
      add up to the heats before. */
  lemma {:induction false} ConductionBalance(ter: seq<Matter>, th: seq<real>, ah: seq<real>,
                                            kept: seq<real>, warmed: seq<real>)
    requires |th| == |ter| && |ah| == |ter| && |kept| == |ter| && |warmed| == |ter|
    requires forall j :: 0 <= j < |ter| ==> kept[j] == Kept(ter[j], th[j])
    requires forall j :: 0 <= j < |ter| ==> warmed[j] == Warmed(ter[j], th[j], ah[j])
    ensures Sum(kept) + Sum(warmed) == Sum(th) + Sum(ah)
  {
    if ter != [] {
      ConductionBalance(ter[1..], th[1..], ah[1..], kept[1..], warmed[1..]);
    }
  }

  /** Air heat `x` after one dissipation. */
  function Cooled(x: real): real {
    x * (1.0 - DISSIPATE)
  }

  /** The air heats after one tick from air heats `ah` over terrain heats
      `th`: each air cell gains what the terrain cell under it gives, then
      keeps `1 - DISSIPATE` of it. */
  function AirAfter(ter: seq<Matter>, th: seq<real>, ah: seq<real>): seq<real>
    requires |th| == |ter| && |ah| == |ter|
  {
    seq(|ter|, j requires 0 <= j < |ter| => AirHeat(ter[j], th[j], ah[j]))
  }

  /** The heats of the mesh `ter` after `n` ticks from a cold start. */
  function ClimateAfter(ter: seq<Matter>, n: nat, cos: real -> real, sin: real -> real): (c: Climate)
    requires forall j :: 0 <= j < |ter| ==> ter[j].kind.TerrainCell?
    ensures |c.terrain| == |ter| && |c.air| == |ter|
  {
    if n == 0 then Climate(seq(|ter|, _ => 0.0), seq(|ter|, _ => 0.0))
    else
      var c := ClimateAfter(ter, n - 1, cos, sin);
      Climate(TerrainAfter(ter, c.terrain, PhaseAfter(n - 1), cos, sin), AirAfter(ter, c.terrain, c.air))
  }

  /** The heats of `ter` and `air` are those of the climate `c`. */
  ghost predicate HasClimate(ter: seq<Matter>, air: seq<Matter>, c: Climate)
    reads ter`heat, air`heat
  {
    |c.terrain| == |ter| && |c.air| == |air| &&
    (forall j :: 0 <= j < |ter| ==> ter[j].heat == c.terrain[j]) &&
    (forall j :: 0 <= j < |air| ==> air[j].heat == c.air[j])
  }

  /** One tick from the heats of climate `c` leaves the heats of the next
      climate, for the sun at its angle before the tick. */
  method TickFrom(ter: seq<Matter>, air: seq<Matter>, sun: Sun, c: Climate, cos: real -> real, sin: real -> real)
    requires Layered(ter, air) && sun.heat == SUN_HEAT && HasClimate(ter, air, c)
    modifies ter`conductableHeat, ter`conductTo, ter`heat, air`conductableHeat, air`conductTo, air`heat
    modifies sun`time
    ensures Layered(ter, air) && sun.time == PhaseAdvance(old(sun.time)) && sun.heat == SUN_HEAT
    ensures HasClimate(ter, air,
      Climate(TerrainAfter(ter, c.terrain, old(sun.time), cos, sin), AirAfter(ter, c.terrain, c.air)))
  {
    ghost var warmed := Tick(ter, air, sun, cos, sin);
    TerrainStepped(ter, c, Heats(ter), old(sun.time), cos, sin);
    AirStepped(ter, c, warmed, Heats(air));
  }

  /** One more tick takes the climate after `k` ticks to the one after `k + 1`. */
  lemma ClimateNext(ter: seq<Matter>, k: nat, cos: real -> real, sin: real -> real)
    requires forall j :: 0 <= j < |ter| ==> ter[j].kind.TerrainCell?
    ensures ClimateAfter(ter, k + 1, cos, sin) ==
      Climate(TerrainAfter(ter, ClimateAfter(ter, k, cos, sin).terrain, PhaseAfter(k), cos, sin),
              AirAfter(ter, ClimateAfter(ter, k, cos, sin).terrain, ClimateAfter(ter, k, cos, sin).air))
  {
  }

  /** Terrain heats `nh` that each came from the heat of climate `c` by
      losing the share `conduct` and gaining the sunlight are the terrain
      heats of the next climate. */
  lemma TerrainStepped(ter: seq<Matter>, c: Climate, nh: seq<real>, time: real, cos: real -> real, sin: real -> real)
    requires |c.terrain| == |ter| && |nh| == |ter|
    requires forall j :: 0 <= j < |ter| ==> ter[j].kind.TerrainCell?
    requires forall j :: 0 <= j < |ter| ==> nh[j] == TerrainHeat(ter[j], c.terrain[j], SUN_HEAT, time, cos, sin)
    ensures nh == TerrainAfter(ter, c.terrain, time, cos, sin)
  {
  }

  /** Air heats `nh` that each came from the heat of climate `c` by gaining
      what the terrain cell under it gave and then dissipating are the air
      heats of the next climate. */
  lemma AirStepped(ter: seq<Matter>, c: Climate, warmed: seq<real>, nh: seq<real>)
    requires |warmed| == |ter| && |nh| == |ter| && |c.terrain| == |ter| && |c.air| == |ter|
    requires forall j :: 0 <= j < |ter| ==> warmed[j] == Warmed(ter[j], c.terrain[j], c.air[j])
    requires forall j :: 0 <= j < |ter| ==> nh[j] == Cooled(warmed[j])
    ensures nh == AirAfter(ter, c.terrain, c.air)
  {
  }

  /** Lines 147-208 without the drawing: the rings for `sizes` are built, the
      sun starts at angle 0, and the main loop runs `n` times. The mesh keeps
      its layout, the heats are those of `n` ticks from a cold start, and the
      sun's angle stays in [0, 2 * pi). */
  method Simulate(sizes: seq<nat>, n: nat, cos: real -> real, sin: real -> real)
    returns (ters: seq<seq<Matter>>, airs: seq<seq<Matter>>, ghost lons: seq<seq<seq<Matter>>>,
             ter: seq<Matter>, air: seq<Matter>, sun: Sun)
    requires forall k :: 0 <= k < |sizes| ==> sizes[k] >= 1
    ensures |ters| == |sizes| && Built(ters, airs, lons, sizes)
    ensures ter == Flatten(ters) && air == Flatten(airs) && Layered(ter, air)
    ensures HasClimate(ter, air, ClimateAfter(ter, n, cos, sin))
    ensures sun.time == PhaseAfter(n) && 0.0 <= sun.time < TWO_PI && sun.heat == SUN_HEAT
  {
    sun := new Sun();
    ters, airs, ter, air, lons := Setup(sizes);
    RunTicks(ters, airs, lons, sizes, ter, air, sun, n, cos, sin);
  }

  /** Line 169's loop, `n` times over a cold mesh: the heats are those of `n`
      ticks, the sun's angle is PhaseAfter(n), and as no tick touches a link
      the mesh is still the one built from `sizes`. */
  method RunTicks(ters: seq<seq<Matter>>, airs: seq<seq<Matter>>, ghost lons: seq<seq<seq<Matter>>>,
                  sizes: seq<nat>, ter: seq<Matter>, air: seq<Matter>, sun: Sun, n: nat,
                  cos: real -> real, sin: real -> real)
    requires Built(ters, airs, lons, sizes)
    requires Layered(ter, air) && sun.time == 0.0 && sun.heat == SUN_HEAT
    requires (forall j :: 0 <= j < |ter| ==> ter[j].heat == 0.0) && forall j :: 0 <= j < |air| ==> air[j].heat == 0.0
    modifies ter`conductableHeat, ter`conductTo, ter`heat, air`conductableHeat, air`conductTo, air`heat
    modifies sun`time
    ensures Built(ters, airs, lons, sizes) && Layered(ter, air)
    ensures HasClimate(ter, air, ClimateAfter(ter, n, cos, sin))
    ensures sun.time == PhaseAfter(n) && sun.heat == SUN_HEAT
  {
    var k := 0;
    while k < n
      invariant 0 <= k <= n && Layered(ter, air)
      invariant HasClimate(ter, air, ClimateAfter(ter, k, cos, sin))
      invariant sun.time == PhaseAfter(k) && sun.heat == SUN_HEAT
    {
      TickFrom(ter, air, sun, ClimateAfter(ter, k, cos, sin), cos, sin);
      ClimateNext(ter, k, cos, sin);
      k := k + 1;
    }
  }
}
