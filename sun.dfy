/** The sun: a point heat source at angle `time` around the equator that
    warms the terrain cells within a quarter turn of it and then moves on by a
    fixed step. The trigonometric functions are parameters, so nothing about
    their values is assumed. */
module SunModel {
  import opened Numerics
  import opened Cells

  const SUN_HEAT: real := 5.0
  const PHASE_STEP: real := 0.25

  function Abs(x: real): real {
    if x < 0.0 then -x else x
  }

  /** A cell at angle `theta` faces the sun at angle `time`: the difference, or
      the difference shifted by a full turn either way, is under a quarter turn.
      For the angles the mesh and the sun produce, that three-way test is
      exactly "within a quarter turn around the circle". */
  predicate Lit(theta: real, time: real): (b: bool)
    ensures 0.0 <= theta <= TWO_PI && 0.0 <= time < TWO_PI ==> (b <==> AngularDistance(theta, time) < PI / 2.0)
  {
    Abs(theta - time) < PI / 2.0 ||
    Abs(theta - time - TWO_PI) < PI / 2.0 ||
    Abs(theta - time + TWO_PI) < PI / 2.0
  }

  /** The angle between two directions on a circle, in [0, pi]. */
  function AngularDistance(a: real, b: real): (d: real)
    requires 0.0 <= a <= TWO_PI && 0.0 <= b <= TWO_PI
    ensures 0.0 <= d <= PI
    ensures d == Abs(a - b) || d == TWO_PI - Abs(a - b)
  {
    var e := Abs(a - b);
    if e <= PI then e else TWO_PI - e
  }

  /** The sun's angle after one call: advanced by PHASE_STEP and wrapped into
      [0, 2 * pi) the way Python's float `%` does. */
  function PhaseAdvance(time: real): (r: real)
    ensures 0.0 <= r < TWO_PI
    ensures 0.0 <= time < TWO_PI - PHASE_STEP ==> r == time + PHASE_STEP
    ensures TWO_PI - PHASE_STEP <= time < TWO_PI ==> r == time + PHASE_STEP - TWO_PI
  {
    FloorMod(time + PHASE_STEP, TWO_PI)
  }

  /** After `n` calls from angle 0 the sun is still within [0, 2 * pi). */
  function PhaseAfter(n: nat): (r: real)
    ensures 0.0 <= r < TWO_PI
  {
    if n == 0 then 0.0 else PhaseAdvance(PhaseAfter(n - 1))
  }

  /** The terrain cells among `ter` that face the sun at angle `time`, in order. */
  function LitCells(ter: seq<Matter>, time: real): (r: seq<Matter>)
    ensures |r| <= |ter|
    ensures forall i :: 0 <= i < |r| ==> Lit(r[i].theta, time)
  {
    if ter == [] then []
    else
      var rest := LitCells(ter[..|ter| - 1], time);
      var t := ter[|ter| - 1];
      if Lit(t.theta, time) then rest + [t] else rest
  }

  /** A cell is selected exactly when it is one of `ter` and faces the sun, and
      selecting keeps a list free of repeats. */
  lemma {:induction false} LitCellsMembers(ter: seq<Matter>, time: real, t: Matter)
    ensures t in LitCells(ter, time) <==> t in ter && Lit(t.theta, time)
    ensures NoDup(ter) ==> NoDup(LitCells(ter, time))
  {
    if ter != [] {
      var p, last := ter[..|ter| - 1], ter[|ter| - 1];
      assert ter == p + [last];
      LitCellsMembers(p, time, t);
      LitCellsMembers(p, time, last);
    }
  }

  /** In a list free of repeats, a cell gains from the selection exactly
      once if it faces the sun and not at all otherwise. */
  lemma LitGained(ter: seq<Matter>, time: real, t: Matter, d: real)
    requires NoDup(ter) && t in ter
    ensures Gained(LitCells(ter, time), t, d) == if Lit(t.theta, time) then d else 0.0
  {
    LitCellsMembers(ter, time, t);
    if Lit(t.theta, time) {
      GainedOnce(LitCells(ter, time), t, d);
    } else {
      GainedAbsent(LitCells(ter, time), t, d);
    }
  }

  /** The sunlight that reaches a cell from a sun of heat `sunHeat` at angle
      `time`: `sunHeat * cos(theta - time) * sin(phi)`. */
  function Incident(sunHeat: real, time: real, cos: real -> real, sin: real -> real): Matter -> real {
    (t: Matter) => sunHeat * cos(t.theta - time) * sin(t.phi)
  }

  /** The heat terrain cell `t` absorbs from the sun at angle `time`. */
  function Sunlight(t: Matter, sunHeat: real, time: real, cos: real -> real, sin: real -> real): (r: real)
    requires t.kind.TerrainCell?
    ensures t.kind.material == Land ==> r == 0.8 * Incident(sunHeat, time, cos, sin)(t)
    ensures t.kind.material == Water ==> r == 0.5 * Incident(sunHeat, time, cos, sin)(t)
    ensures 0.0 <= Incident(sunHeat, time, cos, sin)(t) ==> 0.0 <= r <= Incident(sunHeat, time, cos, sin)(t)
  {
    Absorbed(Incident(sunHeat, time, cos, sin)(t), t.kind.material)
  }

  class Sun {
    var heat: real
    var time: real

    constructor ()
      ensures heat == SUN_HEAT && time == 0.0
    {
      heat, time := SUN_HEAT, 0.0;
    }

    /** Illuminates every terrain cell that faces the sun, once per time it is
        listed, with `heat * cos(theta - time) * sin(phi)`, then advances the
        sun's angle. */
    method WarmTer(ter: seq<Matter>, cos: real -> real, sin: real -> real)
      requires forall t :: t in ter ==> t.kind.TerrainCell?
      modifies ter`heat, this`time
      ensures time == PhaseAdvance(old(time))
      ensures forall t :: t in ter ==>
        t.heat == old(t.heat) + Gained(LitCells(ter, old(time)), t, Sunlight(t, heat, old(time), cos, sin))
    {
      var targets := LitCells(ter, time);
      forall i | 0 <= i < |targets| ensures targets[i] in ter {
        LitCellsMembers(ter, time, targets[i]);
      }
      var h, now := heat, time;
      IlluminateEach(targets, Incident(h, now, cos, sin));
      forall t | t in ter
        ensures t.heat == old(t.heat) + Gained(targets, t, Sunlight(t, h, now, cos, sin))
      {
        if t !in targets {
          GainedAbsent(targets, t, Sunlight(t, h, now, cos, sin));
        }
      }
      time := time + PHASE_STEP;
      time := FloorMod(time, TWO_PI);
    }
  }

  /** The loop of `warm_ter`: each entry of `targets` in turn is illuminated
      with the light `incident` says falls on it, so a cell listed twice is lit
      twice. */
  method IlluminateEach(targets: seq<Matter>, incident: Matter -> real)
    requires forall t :: t in targets ==> t.kind.TerrainCell?
    modifies targets`heat
    ensures forall t :: t in targets ==>
      t.heat == old(t.heat) + Gained(targets, t, Absorbed(incident(t), t.kind.material))
  {
    var i := 0;
    while i < |targets|
      invariant 0 <= i <= |targets|
      invariant forall t :: t in targets ==>
        t.heat == old(t.heat) + Gained(targets[..i], t, Absorbed(incident(t), t.kind.material))
    {
      var t := targets[i];
      assert targets[..i + 1][..i] == targets[..i];
      t.Illuminate(incident(t));
      i := i + 1;
    }
    assert targets[..i] == targets;
  }
}
