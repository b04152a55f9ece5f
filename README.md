# weathersim core in Dafny

A model of the heat simulator in `main.py`.

The simulator covers a sphere with rings of terrain cells, one ring per latitude `phi`. Each terrain cell has an air cell on top of it. Air cells are linked:

- to their neighbours in the same ring ("lat");
- to a proportional range of cells of the neighbouring ring ("lon").

One tick of the main loop does five things in order:

1. Every terrain cell conducts the share `conduct` of its heat into the air cell above it.
2. Every air cell computes what it would conduct.
3. Every air cell conducts it, which is nothing, because air does not conduct.
4. Every air cell dissipates 5% of its heat.
5. The sun warms the terrain cells that face it and moves on by 0.25 rad.

The project has six modules:

- `Numerics` (`numerics.dfy`): exact stand-ins for the numeric primitives the program relies on:
  - Python's `round` (half to even) on a rational;
  - Python's float `%` with a positive modulus;
  - `numpy.linspace` positions.
- `Cells` (`cells.dfy`): the class `Matter` for terrain and air cells, with its constructors `Terrain` and `Air`. Its methods are:
  - `CalcConductable` and `ConductHeat`, the two phases of conduction;
  - `DissipateHeat`;
  - `Illuminate`;
  - `Link`, which is symmetric and adds no duplicates.
- `Mesh` (`mesh.dfy`): building one ring and linking it "lat", and linking two consecutive rings "lon" over the ranges `round((ind2 ± 0.5) * n1 / n2)`.
- `Sphere` (`sphere.dfy`): the loop over all rings (main.py lines 99-141) and the flat lists `ALL_TER` and `ALL_AIR`.
- `SunModel` (`sun.dfy`): the sun's phase, the selection of the cells facing it, and their illumination.
- `Simulation` (`simulation.dfy`): one tick of the main loop, and `n` ticks after building the mesh.

Heat is a `real` and all arithmetic is exact. The ring sizes are an input: the program computes them as `round(1 + 99 * sin(phi))`. `cos` and `sin` are function parameters that the model assumes nothing about.

Where the code does something its comments or its callers do not expect, the model follows the code:

- **A ring of one cell away from the pole is linked "lat" to itself.** Line 126 links the first cell of the ring to the last, which is the same cell. `Mesh.RingLinked` therefore relates position 0 to itself when `n == 1` and the ring is closed. The comment on line 100 expects a single cell only at the poles. With the sizes the program computes, no other ring has one cell, but the model takes any sizes and keeps this case.
- **There is no ring at `phi = pi`.** The comment on line 100 expects one point at `phi = pi` too, but `np.arange(0, pi + 0.001, 0.05)` stops at 3.10. Here the rings are `Phi(k) = k * 0.05` for `k < |sizes|`, and only ring 0 is at `phi == 0`.
- **Conduction to no target destroys heat.** With an empty `conduct_to`, line 29 still subtracts `conductable_heat`, so that heat vanishes. `Cells.Matter.ConductHeat` models this: its conservation clause requires a non-empty target list. It cannot happen in the built mesh, because every terrain cell has an air cell `under` it and air cells conduct 0.

## Model

| member | source | states |
|---|---|---|
| Numerics.RoundHalfEven | main.py:139 | the result is within one half of num/den, and on a tie it is the even neighbour, as Python's `round` |
| Numerics.RoundHalfEvenUnique | main.py:139 | those two properties determine the rounded value uniquely |
| Numerics.RoundHalfEvenMonotone | main.py:139 | rounding never decreases when the numerator grows |
| Numerics.FloorMod | main.py:85 | Python's float `%` with a positive modulus lands in [0, b), and is `a` or `a - b` on the first two periods |
| Numerics.Linspace | main.py:106 | the angles of `linspace(0, 2*pi, n)` lie in [0, 2*pi], are 0 exactly at index 0, and reach 2*pi at the last index |
| Cells.Absorbed | main.py:43-51 | illumination keeps 0.8 of the amount on land and 0.5 on water, never more than the amount and never of opposite sign |
| Cells.Added | main.py:66-70 | one half of `link`: the list gains `x` at the end only when `x` is absent, and stays free of repeats |
| Cells.AddedIdempotent | main.py:66-70 | linking the same cell twice is the same as linking it once |
| Cells.SumShift | main.py:27-28 | adding `d` to each of `k` heats adds `k*d` to their sum |
| Cells.ConductionConserves | main.py:26-29 | `k` distinct targets each gaining a `k`th of `c` gain exactly `c` in total |
| Cells.GainedAbsent | main.py:27-28 | a cell that is not a target gains nothing from the conduction loop |
| Cells.GainedOnce | main.py:27-28 | a cell listed once among the targets gains exactly one share |
| Cells.GainedNothing | main.py:26-29 | with a share of zero (an air cell) no target gains anything |
| Cells.Matter.Terrain | main.py:6-48 | a new terrain cell has heat 0, no links, no cell under it, and the reflect and conduct of its material |
| Cells.Matter.Air | main.py:55-64 | a new air cell sits on `ontopof`, which now has it as `under`; it copies theta and phi, conducts 0 and has heat 0 |
| Cells.Matter.CalcConductable | main.py:20-24 | the conductable heat is `heat * conduct`; the targets are lat ++ lon, then `under` when present |
| Cells.Matter.Share | main.py:28 | each of the `len(conduct_to)` targets receives an equal share, and the shares add up to the conductable heat; with no target the share is 0 |
| Cells.Matter.ConductHeat | main.py:26-29 | each target gains one share per occurrence and the cell loses the whole conductable heat; with distinct, non-empty targets other than itself the total heat is unchanged |
| Cells.GiveEach | main.py:27-28 | the loop over `conduct_to`: each cell gains `amount` once per occurrence, and each entry gains exactly `amount` when entries are distinct |
| Cells.Matter.DissipateHeat | main.py:31-33 | heat is multiplied by `1 - dissipate` if and only if there is no cell under it |
| Cells.Matter.Illuminate | main.py:50-51 | heat grows by `amount * (1 - reflect)` |
| Cells.Matter.Link | main.py:66-70 | afterwards each cell is in the other's list for `d`; each list gains the other cell only if it was absent; the other direction's lists are unchanged |
| Mesh.Phi | main.py:99 | only ring 0 is at `phi == 0`; every later ring is at a positive latitude |
| Mesh.Wrap | main.py:141 | Python's `ind % n` lies in [0, n) and leaves indices already in range unchanged |
| Mesh.RingClosedIsCycle | main.py:121-126 | in a closed ring of at least two cells, two cells are "lat"-linked exactly when one is the other's successor modulo `n` |
| Mesh.LonNearest | main.py:139 | the two ends of a range are the integers nearest to `(ind2 - 0.5) * n1 / n2` and `(ind2 + 0.5) * n1 / n2`, the even one on a tie |
| Mesh.LonRangeNonEmpty | main.py:139-140 | the range `round((i-0.5)n1/n2) .. round((i+0.5)n1/n2)` is never empty, and each range ends where the next one starts |
| Mesh.HitsClosedForm | main.py:140-141 | the range hits position `j` modulo `n` exactly when `(j - lo) % n <= hi - lo` |
| Mesh.LonLinksFromEvery | main.py:138-141 | every cell of the earlier ring gets at least one "lon" link into the later ring |
| Mesh.LonRangesSpan | main.py:138-139 | together the ranges of all positions cover at least `n1` consecutive indices |
| Mesh.LonLinksToEvery | main.py:138-141 | every cell of the later ring gets at least one "lon" link from the earlier ring |
| Mesh.BuildRing | main.py:103-126 | one ring of `n` fresh cells: terrain at the linspace angles, each with its air cell on top; positions are "lat"-linked exactly when adjacent or, away from the pole, when they are the two ends |
| Mesh.AddCell | main.py:106-122 | one pass of the inner loop appends a fresh terrain cell and the air cell on top of it, keeping the ring's link invariant |
| Mesh.JoinCell | main.py:121-122 | the new air cell is linked to its predecessor unless its angle is 0 |
| Mesh.LinkToPrevious | main.py:122 | linking the newest air cell to the one before it extends the open chain of "lat" links |
| Mesh.FinishRing | main.py:125-126 | away from the pole the ring is closed |
| Mesh.CloseRing | main.py:126 | linking the last air cell to the first turns the open chain into a closed ring |
| Mesh.LinkStep | main.py:141 | linking `l2[i2]` and `l1[j]` "lon" adds exactly that pair, in both directions, without duplicates |
| Mesh.LinkPosition | main.py:140-141 | the inner loop links position `ind2` to every position that an index of its range wraps to, and the pairs linked so far grow by exactly those pairs |
| Mesh.LinkRings | main.py:132-141 | starting from no linked pair, afterwards the two rings are "lon"-linked, both ways, exactly at the pairs of the ranges; lists keep their old entries and hold no cell twice |
| Sphere.FlattenHas | main.py:144-145 | every cell of every ring is in the flat list |
| Sphere.FlattenFrom | main.py:144-145 | every cell of the flat list comes from some position of some ring |
| Sphere.FlattenAt | main.py:144-145 | ALL_TER and ALL_AIR have the same length, and position `j` of both comes from the same ring position |
| Sphere.FlattenNoDup | main.py:144-145 | rings that share no cells flatten to a list free of repeats |
| Sphere.FlattenDistinct | main.py:144-145 | ALL_TER and ALL_AIR together hold no cell twice |
| Sphere.LinkNext | main.py:132-141 | linking a new ring to the last one makes consecutive rings "lon"-linked exactly at the pairs of the ranges, and each cell's "lon" links stay within its neighbouring rings |
| Sphere.ExtendLinked | main.py:128-141 | adding a ring away from the pole keeps every ring's cells and "lat" links, and links the new ring to the previous one |
| Sphere.FirstRing | main.py:125-132 | the ring at the pole is not closed and gets no "lon" links |
| Sphere.AddRing | main.py:99-141 | one turn of the outer loop builds a ring of the next size and keeps the whole mesh invariant |
| Sphere.BuildMesh | main.py:99-141 | ring `k` has `sizes[k]` fresh cells at latitude `Phi(k)`; rings are "lat"-linked and consecutive rings "lon"-linked as above; terrain cells have no links; no cell occurs twice; every cell has heat 0 |
| Sphere.AddColdRing | main.py:99-141 | one turn of the outer loop keeps the mesh invariant, the new cells have heat 0, and linking them leaves the earlier cells at heat 0 |
| SunModel.Lit | main.py:79-81 | for angles in [0, 2*pi], the three-way test holds exactly for the cells within a quarter turn of the sun around the circle |
| SunModel.PhaseAdvance | main.py:84-85 | the new phase is `old + 0.25`, or `old + 0.25 - 2*pi` when that passes 2*pi, and lies in [0, 2*pi) |
| SunModel.PhaseAfter | main.py:74-85 | from phase 0, the phase after any number of calls lies in [0, 2*pi) |
| SunModel.LitCells | main.py:79-81 | the selection keeps only cells that face the sun |
| SunModel.LitCellsMembers | main.py:79-81 | a cell is selected exactly when it is in the list and faces the sun, and selection keeps a list free of repeats |
| SunModel.LitGained | main.py:79-83 | in a list free of repeats a cell is illuminated once if it faces the sun and not at all otherwise |
| SunModel.Sunlight | main.py:83 | a land cell keeps 0.8 and a water cell 0.5 of the incident `heat * cos(theta - time) * sin(phi)`, and for a non-negative incident amount the result lies between 0 and that amount |
| SunModel.Sun.constructor | main.py:74-76 | the sun starts with heat 5 at phase 0 |
| SunModel.Sun.WarmTer | main.py:78-85 | each terrain cell gains the absorbed part of `heat * cos(theta - time) * sin(phi)` once per selection, and the phase advances |
| SunModel.IlluminateEach | main.py:82-83 | the loop over the selected cells illuminates each one once per occurrence |
| Simulation.MeshLayered | main.py:144-145 | in the finished mesh, the air cell at each position of ALL_AIR sits on the terrain cell at the same position of ALL_TER; air cells link only air cells; no cell occurs twice |
| Simulation.Setup | main.py:99-145 | builds the mesh and the flat lists ALL_TER and ALL_AIR; they are layered, and every cell is new and has heat 0 |
| Simulation.ConductDown | main.py:195-196 | a terrain cell with no links keeps `h - h*conduct` and gives exactly `h*conduct` to the air cell above it, its only target |
| Simulation.TerrainConduct | main.py:194-196 | each terrain cell loses `heat * conduct`, and the air cell above it gains exactly that; each terrain cell's conductable heat is that amount and its only target is the air cell above it |
| Simulation.ConductionBalance | main.py:26-29 | terrain conduction moves heat from the terrain to the air and creates none: the total after is the total before |
| Simulation.AirCompute | main.py:198-199 | every air cell has conductable heat 0 and targets lat ++ lon |
| Simulation.AirConduct | main.py:201-202 | air conduction changes no heat |
| Simulation.AirShare | main.py:198-202 | computing and conducting change no air heat, and leave every air cell with conductable heat 0 and targets lat ++ lon |
| Simulation.AirDissipate | main.py:204-205 | every air cell keeps the fraction `1 - dissipate` of its heat |
| Simulation.AirPass | main.py:198-205 | the three air loops together multiply every air heat by 0.95, keep the layout, and leave each air cell with conductable heat 0 and targets lat ++ lon |
| Simulation.HeatPass | main.py:194-205 | terrain heat becomes `h - h*conduct`; the air cell above holds `a + h*conduct` after terrain conduction, and keeps 0.95 of that; the conduction scratch fields are as in TerrainConduct and AirPass |
| Simulation.SunPass | main.py:208 | each terrain cell facing the sun gains its absorbed sunlight once; air heats are unchanged; the phase advances |
| Simulation.Tick | main.py:194-208 | one tick: terrain heat `h` becomes `h - h*conduct` plus the sunlight if the cell faces the sun (TerrainHeat); air heat `a` becomes `(a + h*conduct) * 0.95` (Warmed, then Cooled); the scratch fields are as in HeatPass; the phase advances; the layout is unchanged |
| Simulation.TickFrom | main.py:194-208 | a tick from the heats of a climate leaves the heats of the next climate, for the sun's phase before the tick |
| Simulation.RunTicks | main.py:169-208 | `n` ticks from a cold mesh with the sun at phase 0 leave the heats of ClimateAfter(n) and the phase PhaseAfter(n), and keep the mesh built from `sizes` |
| Simulation.Simulate | main.py:147-208 | after building the mesh and running `n` ticks: the rings are the mesh built from `sizes` and ALL_TER/ALL_AIR are their flat lists, layered; every heat is that of ClimateAfter(n), the recurrence of `n` ticks from heat 0; the sun still has heat 5 and its phase is PhaseAfter(n), in [0, 2*pi) |

## Left out

- Drawing is not modelled: matplotlib, the 3-D coordinates, heat normalisation and `plt.pause` (lines 150-191, 210-216).
- `print(npoints)` (line 105) is not modelled.
- The endless `while True` loop (line 169) is modelled as `n` ticks in `Simulation.Simulate`.
- The ring-size formula `round(1 + 99 * sin(phi))` (line 102) is not modelled. The sizes are an input, each at least 1.
- `np.cos` and `np.sin` in the sunlight amount (line 83) are function parameters. Nothing is assumed about their values.
- Floating point is not modelled:
  - heat, angles, `pi` and the phase are exact reals;
  - `np.arange` latitudes are exactly `k * 0.05`, and their number is `|sizes|`.
- Water terrain is left out. The commented-out water region (lines 110-114) is disabled, so the mesh builds land only. `Terrain` and `Absorbed` still handle water's constants.
- Mesh.BuildRing: states which cells each "lat" list holds, not the order in which they were appended.
- Mesh.LinkRings: states which cells each "lon" list holds and that the old entries come first, not the order of the new entries.
- Sphere.BuildMesh: states heat 0 for every cell of the finished mesh, but not that every cell still has conductable heat 0 and an empty `conduct_to`. Mesh.BuildRing states those for each new ring.
- Simulation.Setup: states heat 0 for every cell, not the empty scratch fields, for the same reason.
- Simulation.Simulate: the heats after `n` ticks are stated by the recurrence ClimateAfter, not by a closed formula.
- Simulation.HeatPass: the air heat is stated in two steps through the ghost snapshot `warmed`, the air heat after terrain conduction, not as one closed formula.
- Simulation.Tick: the air heat is stated through `warmed` in the same way as in HeatPass.
