# silvy fireworks, modelled in Dafny

silvy is an Android app that shows a New Year fireworks animation. Rockets start
from random points in the bounds of the view that the user tapped or long-pressed. They fly
to the cells of a 15 x 5 bitmap spelling the year, burst into stars, fade
into "poofs" and vanish. This project models the particle lifecycle engine
(`Particle.kt`) and the activity logic around it (`FireworksActivity.kt`):
decoding the bounds, the sanity guard that picks the screen, and the frame
loop that runs the population down within a 5-second budget.

Modules:

- `Wrappers`: `Option`, for Kotlin's nullable values.
- `Numerics`: Kotlin `Int` arithmetic as 32-bit two's complement
  (`Wrap32`, `Sub32`, `Add32`, `Mul32`), `Int` division truncated
  toward zero (`Quot`), `roundToLong`, and a `Math.random()` draw scaled
  to whole milliseconds (`Draw`).
- `Seqs`: `Select`, the positions of the elements a predicate accepts. It
  is the index bookkeeping behind `mapIndexedNotNull` and `mapNotNull`.
- `Geometry`: the point `V` (coordinates as reals) and `android.graphics.Rect`
  with its wrapping `width()`/`height()`.
- `Particles`: the `Particle` sum type, `isAlive`/`isDead`, the
  per-particle and list `update`, and `generateParticles`.
- `Fireworks`: `toRect`, `isSane`, the screen choice in `onCreate`,
  and the session loop of `Fireworks` as a method with a `while` loop.

The clock, `Math.random()` and the float tween/heading computation are
parameters. Times are whole milliseconds. A list update receives the clock
reading it uses and one draw per particle (`us[k]` for particle `k`). The
tween is a function `Tween = (Particle, int) -> Motion`. It yields the new
position and, for rockets, the heading.

## Model

| member | source | states |
|---|---|---|
| Numerics.Wrap32 | app/src/main/java/jetzt/jfdi/silvy/Particle.kt:97 | the result is congruent to the argument modulo 2^32, is the argument itself when that fits an `Int`, and is shifted by 2^32 one period above or below |
| Numerics.Sub32 | app/src/main/java/jetzt/jfdi/silvy/FireworksActivity.kt:197 | Kotlin `Int` `-`: the true difference when it fits, otherwise the value congruent to it modulo 2^32 (properties in Fireworks.SubPositive) |
| Numerics.Add32 | app/src/main/java/jetzt/jfdi/silvy/Particle.kt:97 | Kotlin `Int` `+`: the true sum when it fits, otherwise the value congruent to it modulo 2^32 |
| Numerics.Mul32 | app/src/main/java/jetzt/jfdi/silvy/Particle.kt:97 | Kotlin `Int` `*`: the true product when it fits, otherwise the value congruent to it modulo 2^32 |
| Numerics.Quot | app/src/main/java/jetzt/jfdi/silvy/Particle.kt:83-84 | `Int` division by a positive divisor truncates toward zero: bounds on the quotient for non-negative and for negative dividends |
| Numerics.RoundToLong | app/src/main/java/jetzt/jfdi/silvy/Particle.kt:94 | the result is within one half of the argument (ties go up) |
| Numerics.Draw | app/src/main/java/jetzt/jfdi/silvy/Particle.kt:94 | a random fraction of `span`, rounded, lies in [0, span] |
| Seqs.Select | app/src/main/java/jetzt/jfdi/silvy/Particle.kt:87 | the selected positions are exactly the accepted ones, every one in range and strictly increasing |
| Geometry.FromInts | app/src/main/java/jetzt/jfdi/silvy/V.kt:12 | definition: each `Int` coordinate converted to a float, exactly (see Left out); properties in Particles.CellCornerInside |
| Geometry.Rect.Width | app/src/main/java/jetzt/jfdi/silvy/FireworksActivity.kt:197 | the width is `right - left` whenever that does not overflow, otherwise the value congruent to it modulo 2^32 |
| Geometry.Rect.Height | app/src/main/java/jetzt/jfdi/silvy/FireworksActivity.kt:197 | the height is `bottom - top` whenever that does not overflow, otherwise the value congruent to it modulo 2^32 |
| Geometry.EmptyRect | app/src/main/java/jetzt/jfdi/silvy/FireworksActivity.kt:191 | definition: `Rect()` has all four edges 0; properties in Fireworks.EmptyRectNotSane |
| Particles.IsAlive | app/src/main/java/jetzt/jfdi/silvy/Particle.kt:176 | definition: created at or before `time` and `time` before the end of the lifetime; properties in Particles.AliveDeadPartition |
| Particles.IsDead | app/src/main/java/jetzt/jfdi/silvy/Particle.kt:177 | definition: `time` at or after the end of the lifetime; properties in Particles.AliveDeadPartition |
| Particles.AliveDeadPartition | app/src/main/java/jetzt/jfdi/silvy/Particle.kt:176-177 | alive and dead never hold together; before creation neither holds (non-negative lifetime); from creation on exactly one holds |
| Particles.StarLifeTime | app/src/main/java/jetzt/jfdi/silvy/Particle.kt:126 | a star's lifetime lies in [750, 1000] |
| Particles.Update | app/src/main/java/jetzt/jfdi/silvy/Particle.kt:106-165 | removal happens exactly for a dead Poof; the phase never goes up; a dead Rocket becomes a Star parked at its target, created now, living 750..1000; a dead Star becomes a Poof parked at its target, created now, living 200; a phase that is not over keeps variant, initial, target and timing; an unborn particle or a live Poof is returned unchanged; a live Rocket takes position and heading from the tween, a live Star its position; with a tween that keeps a directionless particle still, a particle sitting on its target stays there |
| Particles.ParkedStayParked | app/src/main/java/jetzt/jfdi/silvy/Particle.kt:110-116 | with a tween that keeps a directionless particle still, a population sitting on its targets (burst stars, poofs) still sits on its targets after the list update |
| Particles.UpdateAll | app/src/main/java/jetzt/jfdi/silvy/Particle.kt:168-174 | the list update never grows the population |
| Particles.UpdateAllSurvivors | app/src/main/java/jetzt/jfdi/silvy/Particle.kt:171-173 | the list update keeps exactly the particles that are not dead Poofs, in their order, and each survivor is that particle's own update at the shared time |
| Particles.RocketsBurst | app/src/main/java/jetzt/jfdi/silvy/Particle.kt:119-127 | a population of rockets past their flight becomes, in place, a population of stars parked at their targets, created now, living 750..1000 |
| Particles.StarsFade | app/src/main/java/jetzt/jfdi/silvy/Particle.kt:143-151 | a population of dead stars becomes, in place, poofs parked at the stars' targets, created now, living 200 |
| Particles.PoofsVanish | app/src/main/java/jetzt/jfdi/silvy/Particle.kt:158-160 | a population of dead poofs updates to the empty list |
| Particles.SelectCountsSetCells | app/src/main/java/jetzt/jfdi/silvy/Particle.kt:87-89 | the lit positions of a bitmap are as many as its nonzero cells |
| Particles.RocketCellCount | app/src/main/java/jetzt/jfdi/silvy/Particle.kt:9-15 | the year bitmap has 39 lit cells |
| Particles.GridOf | app/src/main/java/jetzt/jfdi/silvy/Particle.kt:83-84 | the grid starts at the destination's corner; for non-negative extents 15 columns and 5 rows of the truncated cell size fit, and a cell one unit wider (resp. taller) would not (less than 15, resp. 5, units to spare) |
| Particles.CellCorner | app/src/main/java/jetzt/jfdi/silvy/Particle.kt:91-97 | definition: column `i % 15` and row `i / 15` scaled by the cell size in `Int` arithmetic; properties in Particles.CellCornerInside |
| Particles.CellCornerInside | app/src/main/java/jetzt/jfdi/silvy/Particle.kt:91-97 | for a non-negative extent that fits an `Int`, cell `i` has its corner at (left + (i % 15) * (width / 15), top + (i / 15) * (height / 5)), inside the destination |
| Particles.GridExample | app/src/main/java/jetzt/jfdi/silvy/Particle.kt:83-84 | a 150 x 50 destination has 10 x 10 cells, so cell 16 is at (left + 10, top + 10) |
| Particles.LaunchDelay | app/src/main/java/jetzt/jfdi/silvy/Particle.kt:94 | the launch delay lies in [0, 250] |
| Particles.MakeRocket | app/src/main/java/jetzt/jfdi/silvy/Particle.kt:94-101 | a generated rocket starts at its start point with heading 0, targets its cell corner, launches 0..250 ms after generation, flies 750..1000 ms and arrives exactly 1000 ms after generation |
| Particles.Layout | app/src/main/java/jetzt/jfdi/silvy/Particle.kt:87-103 | definition: one rocket per set cell, consuming start points and draws in order; properties in Particles.LayoutRockets |
| Particles.LayoutRockets | app/src/main/java/jetzt/jfdi/silvy/Particle.kt:87-103 | the k-th rocket is made for the k-th lit cell with the k-th start point and draw, and there are no others |
| Particles.GenerateParticles | app/src/main/java/jetzt/jfdi/silvy/Particle.kt:82-104 | 39 rockets, in cell order, each aimed at its cell's corner, starting at rest at its start point, launched in [time, time + 250] and arriving at time + 1000 |
| Particles.GeneratedPopulationBurnsOut | app/src/main/java/jetzt/jfdi/silvy/Particle.kt:119-163 | updates after all rockets arrive, then after the longest star life, then after the poof life leave nothing of a generated population |
| Fireworks.ToRect | app/src/main/java/jetzt/jfdi/silvy/FireworksActivity.kt:189-195 | a missing or short array gives the empty rect; otherwise entries 0..3 are left, top, right, bottom |
| Fireworks.ToIntArray | app/src/main/java/jetzt/jfdi/silvy/AbusingAccessibilityService.kt:68 | encoding a rect gives four entries that decode back to the same rect |
| Fireworks.EncodeDecoded | app/src/main/java/jetzt/jfdi/silvy/AbusingAccessibilityService.kt:68 | decoding a four-entry array and encoding it again gives the array back |
| Fireworks.ToRectIgnoresTail | app/src/main/java/jetzt/jfdi/silvy/FireworksActivity.kt:192-194 | entries after the fourth do not change the decoded rect |
| Fireworks.IsSane | app/src/main/java/jetzt/jfdi/silvy/FireworksActivity.kt:197 | definition: positive `Int` width and height; properties in Fireworks.SaneEdges and Fireworks.SaneIffOrdered |
| Fireworks.SubPositive | app/src/main/java/jetzt/jfdi/silvy/FireworksActivity.kt:197 | an `Int` difference is positive exactly when the true difference is positive and below 2^31, or below -2^31 |
| Fireworks.SaneEdges | app/src/main/java/jetzt/jfdi/silvy/FireworksActivity.kt:197 | a rect is sane exactly when each extent is positive and fits, or wraps around |
| Fireworks.SaneIffOrdered | app/src/main/java/jetzt/jfdi/silvy/FireworksActivity.kt:197 | without overflow, sane exactly when right > left and bottom > top |
| Fireworks.EmptyRectNotSane | app/src/main/java/jetzt/jfdi/silvy/FireworksActivity.kt:189-191 | the empty rect fails the guard |
| Fireworks.InvertedRectPassesGuard | app/src/main/java/jetzt/jfdi/silvy/FireworksActivity.kt:197 | the rect (1, 0, -2^31, 1) has right < left yet passes the guard, its width wrapping to 2^31 - 1 |
| Fireworks.ScreenFor | app/src/main/java/jetzt/jfdi/silvy/FireworksActivity.kt:48-63 | fireworks are shown exactly when the decoded bounds are sane, and start from those bounds |
| Fireworks.MissingBoundsFallBack | app/src/main/java/jetzt/jfdi/silvy/FireworksActivity.kt:50-62 | a missing or short bounds array always leads to the how-to screen |
| Fireworks.SentBoundsReachFireworks | app/src/main/java/jetzt/jfdi/silvy/FireworksActivity.kt:50-54 | bounds encoded by the service start the fireworks from that very rect exactly when it is sane |
| Fireworks.Tick | app/src/main/java/jetzt/jfdi/silvy/FireworksActivity.kt:99-102 | one iteration replaces the population by its list update at the frame's clock reading (so it never grows), charges the time measured since `last`, and moves `last` on |
| Fireworks.Replay | app/src/main/java/jetzt/jfdi/silvy/FireworksActivity.kt:97-103 | any number of iterations never grows the population |
| Fireworks.Opening | app/src/main/java/jetzt/jfdi/silvy/FireworksActivity.kt:85-96 | the loop is entered with the 5000 ms budget, `last` at the opening reading and the list update of the generated population (no more particles than generated) |
| Fireworks.RunSession | app/src/main/java/jetzt/jfdi/silvy/FireworksActivity.kt:93-106 | the loop's final state is the replay of the frames it consumed; the loop condition held before each iteration and fails at exit unless the supplied frames ran out |
| Fireworks.BudgetTelescopes | app/src/main/java/jetzt/jfdi/silvy/FireworksActivity.kt:101-102 | when one reading serves both the budget and `last`, the budget spent is the wall-clock time from the opening reading to the last one |
| Fireworks.BudgetShrinks | app/src/main/java/jetzt/jfdi/silvy/FireworksActivity.kt:97-102 | with readings at least 1 ms apart, n iterations spend at least n ms |
| Fireworks.BudgetEndsSession | app/src/main/java/jetzt/jfdi/silvy/FireworksActivity.kt:85-103 | with readings at least 1 ms apart, the loop condition fails after at most 5000 iterations |

## Left out

- Float geometry: `V.kt`'s float operators, the linear and cubic tweens, the `atan2` heading and `toDegrees` are not modelled. Their result is the `Tween` parameter of `Particles.Update`.
- Particles.Update: that burst stars do not travel rests on the hypothesis `StillWhenParked` about the tween. It states the float identity `initial + 0 * f == initial` for a finite `f`, and is a hypothesis of the contract rather than derived from float arithmetic.
- `Rect.randomPoint` and `Rect.center` are left out. `Particles.GenerateParticles` takes the start points as a parameter, so its `from` rect does not appear.
- `Geometry.FromInts`: the `Int`-to-`Float` conversion is modelled as exact. Floats round integers above 2^24.
- Times are unbounded integers. `Long` overflow of clock readings is not modelled.
- `System.currentTimeMillis()` and `Math.random()` are parameters (clock readings, and draws in [0, 1)). The model does not say how these values are produced.
- The Compose rendering (boxes, emoji, the -45 degree sprite offset), `HowToAccessibilityInfo`'s layout and `openAccessibilitySettings` are left out. The how-to screen is a constant `Screen`.
- The `to` rect computed from the screen density is not modelled. `Particles.GenerateParticles` takes any rect.
- `LaunchedEffect(key1 = timeLeft)` restarts its block whenever `timeLeft` changes. That cancellation and restart, `delay(16)` and `finish()` are coroutine and platform behaviour. `Fireworks.RunSession` models one uninterrupted run of the block.
- `Fireworks.RunSession` also stops when the supplied frames run out. The environment it is given is finite.
- `AbusingAccessibilityService.kt` is left out apart from `Rect.toIntArray`, which is `Fireworks.ToIntArray`.
- `Particles.YearPicture` is written as the concatenation of its five rows. The cells are the same.
- The guard in `onCreate` is applied to the decoded accessibility bounds (`from`), not to the destination rect `to`. The model follows the code.
