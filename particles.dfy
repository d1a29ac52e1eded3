/**
 The particle lifecycle engine: rockets fly from a start point to a cell of
 the year formation, burst into stars, fade into poofs and disappear.

 Times are whole milliseconds. The clock, `Math.random()` and the float
 tween/heading computation are supplied by the caller.
 */
module Particles {
  import opened Wrappers
  import opened Numerics
  import opened Seqs
  import opened Geometry

  /** Width of the formation bitmap in cells. */
  const YearPictureWidth: nat := 15

  /** The formation: 5 rows of 15 cells; a nonzero cell asks for a rocket. */
  const YearPicture: seq<int> := YearRow0 + YearRow1 + YearRow2 + YearRow3 + YearRow4

  const YearRow0: seq<int> := [1, 1, 1, 0, 0, 1, 0, 0, 1, 1, 1, 0, 1, 0, 1]
  const YearRow1: seq<int> := [0, 0, 1, 0, 1, 0, 1, 0, 0, 0, 1, 0, 1, 0, 1]
  const YearRow2: seq<int> := [1, 1, 1, 0, 1, 0, 1, 0, 1, 1, 1, 0, 1, 1, 1]
  const YearRow3: seq<int> := [1, 0, 0, 0, 1, 0, 1, 0, 1, 0, 0, 0, 0, 0, 1]
  const YearRow4: seq<int> := [1, 1, 1, 0, 0, 1, 0, 0, 1, 1, 1, 0, 0, 0, 1]

  const FlightTime: int := 1000
  const FlightTimeStartDerivation: nat := 250

  const StarMinLifeTime: int := 750
  const StarMaxLifeTime: int := 1000

  const PoofLifeTime: int := 200

  /** One animated element; the three phases share their common fields. */
  datatype Particle =
    | Rocket(initial: V, target: V, createdAt: int, lifetimeMillis: int, position: V, rotationInDegrees: real)
    | Star(initial: V, target: V, createdAt: int, lifetimeMillis: int, position: V)
    | Poof(initial: V, target: V, createdAt: int, lifetimeMillis: int, position: V)

  /** The particle's current phase is running at `time`. */
  predicate IsAlive(p: Particle, time: int) {
    time >= p.createdAt && time < p.createdAt + p.lifetimeMillis
  }

  /** The particle's current phase is over at `time`. */
  predicate IsDead(p: Particle, time: int) {
    time >= p.createdAt + p.lifetimeMillis
  }

  /**
   Alive and dead never hold together; before its creation time a particle
   (with a non-negative lifetime) is neither, and from then on exactly one.
   */
  lemma AliveDeadPartition(p: Particle, time: int)
    ensures !(IsAlive(p, time) && IsDead(p, time))
    ensures time < p.createdAt && p.lifetimeMillis >= 0 ==> !IsAlive(p, time) && !IsDead(p, time)
    ensures time >= p.createdAt ==> IsAlive(p, time) != IsDead(p, time)
  {
  }

  // ---------------------------------------------------------------------------
  // One particle, one tick

  /** What the float tween and the atan2 heading yield for a particle at a time. */
  datatype Motion = Motion(position: V, rotationInDegrees: real)

  /** The float position/heading computation, treated as a given function. */
  type Tween = (Particle, int) -> Motion

  /**
   A tween that leaves a particle without direction where it is: the new
   position is `initial + (target - initial) * f` for a finite `f` (the
   progress of an alive particle is finite), so when `initial == target`
   it is `initial`.
   */
  ghost predicate StillWhenParked(tween: Tween) {
    forall p: Particle, t: int :: p.initial == p.target && IsAlive(p, t) ==> tween(p, t).position == p.initial
  }

  /** Rocket = 2, Star = 1, Poof = 0: the lifecycle only moves downwards. */
  function Phase(p: Particle): nat {
    match p
    case Rocket(_, _, _, _, _, _) => 2
    case Star(_, _, _, _, _) => 1
    case Poof(_, _, _, _, _) => 0
  }

  /** Same variant, and the same points of departure and arrival and the same timing. */
  predicate SamePhase(p: Particle, q: Particle) {
    Phase(p) == Phase(q) && p.initial == q.initial && p.target == q.target
    && p.createdAt == q.createdAt && p.lifetimeMillis == q.lifetimeMillis
  }

  /** All three points of `q` sit on `at`: the particle does not travel. */
  predicate Parked(q: Particle, at: V) {
    q.initial == at && q.target == at && q.position == at
  }

  /** A particle the list update drops at `time`: a Poof whose life is over. */
  predicate Removed(p: Particle, time: int) {
    p.Poof? && IsDead(p, time)
  }

  /** A star's lifetime, drawn from `u`, a result of `Math.random()`. */
  function StarLifeTime(u: real): (l: int)
    requires 0.0 <= u < 1.0
    ensures StarMinLifeTime <= l <= StarMaxLifeTime
  {
    StarMinLifeTime + Draw(u, StarMaxLifeTime - StarMinLifeTime)
  }

  /**
   `Particle.update(time)`: a dead phase turns into the next one (a dead
   Poof into nothing), an alive phase takes its new position (and, for a
   rocket, heading) from `tween`, and a particle not yet born is kept as it is.
   `u` is the `Math.random()` draw used when a rocket bursts.
   */
  function Update(p: Particle, time: int, tween: Tween, u: real): (r: Option<Particle>)
    requires 0.0 <= u < 1.0
    ensures r.None? <==> Removed(p, time)
    ensures r.Some? ==> Phase(r.value) <= Phase(p)
    ensures r.Some? && p.lifetimeMillis > 0 ==> r.value.lifetimeMillis > 0
    // a dead rocket bursts into a star at its target
    ensures p.Rocket? && IsDead(p, time) ==>
      && r.Some? && r.value.Star? && Parked(r.value, p.target) && r.value.createdAt == time
      && StarMinLifeTime <= r.value.lifetimeMillis <= StarMaxLifeTime
    // a dead star fades into a poof of fixed length at its target
    ensures p.Star? && IsDead(p, time) ==>
      && r.Some? && r.value.Poof? && Parked(r.value, p.target) && r.value.createdAt == time
      && r.value.lifetimeMillis == PoofLifeTime
    // a phase that is not over is kept, with its timing
    ensures !IsDead(p, time) ==> r.Some? && SamePhase(p, r.value)
    ensures !IsDead(p, time) && (!IsAlive(p, time) || p.Poof?) ==> r == Some(p)
    ensures p.Rocket? && IsAlive(p, time) ==>
      && r.Some? && r.value.Rocket?
      && r.value.position == tween(p, time).position
      && r.value.rotationInDegrees == tween(p, time).rotationInDegrees
    ensures p.Star? && IsAlive(p, time) ==> r.Some? && r.value.position == tween(p, time).position
    // a particle sitting on its target stays there (stars and poofs do not travel)
    ensures StillWhenParked(tween) && Parked(p, p.target) && r.Some? ==> Parked(r.value, p.target)
  {
    match p
    case Rocket(initial, target, createdAt, lifetimeMillis, _, _) =>
      if IsDead(p, time) then
        Some(Star(target, target, time, StarLifeTime(u), target))
      else if IsAlive(p, time) then
        var m := tween(p, time);
        Some(Rocket(initial, target, createdAt, lifetimeMillis, m.position, m.rotationInDegrees))
      else
        Some(p)
    case Star(initial, target, createdAt, lifetimeMillis, _) =>
      if IsDead(p, time) then
        Some(Poof(target, target, time, PoofLifeTime, target))
      else if IsAlive(p, time) then
        Some(Star(initial, target, createdAt, lifetimeMillis, tween(p, time).position))
      else
        Some(p)
    case Poof(_, _, _, _, _) =>
      if IsDead(p, time) then None else Some(p)
  }

  // ---------------------------------------------------------------------------
  // The whole population, one tick

  /** The particles the list update keeps at `time`. */
  function Survives(time: int): Particle -> bool {
    p => !Removed(p, time)
  }

  /**
   `List<Particle>.update()`: every particle updated at the same `time`,
   removed ones dropped, order kept. Particle `k` uses draw `us[k]`.
   */
  function UpdateAll(ps: seq<Particle>, time: int, tween: Tween, us: seq<real>): (r: seq<Particle>)
    requires |us| >= |ps| && UnitDraws(us)
    ensures |r| <= |ps|
    decreases |ps|
  {
    if ps == [] then []
    else
      var rest := UpdateAll(ps[1..], time, tween, us[1..]);
      match Update(ps[0], time, tween, us[0])
      case None => rest
      case Some(q) => [q] + rest
  }

  /**
   `r` lists, in order, the updates of the particles at positions `kept`
   (counted from `base`).
   */
  predicate UpdatesAt(ps: seq<Particle>, base: nat, kept: seq<nat>, r: seq<Particle>, time: int, tween: Tween, us: seq<real>)
    requires |us| >= |ps| && UnitDraws(us)
  {
    && |r| == |kept|
    && forall j :: 0 <= j < |kept| ==>
      && base <= kept[j] < base + |ps|
      && Update(ps[kept[j] - base], time, tween, us[kept[j] - base]) == Some(r[j])
  }

  /**
   The list update keeps exactly the particles that are not removed, in
   their order, and each survivor is that particle's own update.
   (Positions counted from `base`; use 0 for the whole list.)
   */
  lemma {:induction false} UpdateAllSurvivors(ps: seq<Particle>, base: nat, time: int, tween: Tween, us: seq<real>)
    requires |us| >= |ps| && UnitDraws(us)
    ensures UpdatesAt(ps, base, Select(ps, Survives(time), base), UpdateAll(ps, time, tween, us), time, tween, us)
    decreases |ps|
  {
    if ps != [] {
      UpdateAllSurvivors(ps[1..], base + 1, time, tween, us[1..]);
      var q := Update(ps[0], time, tween, us[0]);
      var head: seq<nat> := if q.Some? then [base] else [];
      var out := if q.Some? then [q.value] else [];
      SurvivorsUnfold(ps, base, time, tween, us);
      SurvivorsStep(ps, base, time, tween, us, Select(ps[1..], Survives(time), base + 1),
                    UpdateAll(ps[1..], time, tween, us[1..]), head, out);
    }
  }

  /** Select and the list update, unfolded once: the first particle's outcome, then the rest. */
  lemma SurvivorsUnfold(ps: seq<Particle>, base: nat, time: int, tween: Tween, us: seq<real>)
    requires ps != [] && |us| >= |ps| && UnitDraws(us)
    ensures var q := Update(ps[0], time, tween, us[0]);
      && Select(ps, Survives(time), base) == (if q.Some? then [base] else []) + Select(ps[1..], Survives(time), base + 1)
      && UpdateAll(ps, time, tween, us) == (if q.Some? then [q.value] else []) + UpdateAll(ps[1..], time, tween, us[1..])
  {
    var q := Update(ps[0], time, tween, us[0]);
    assert q.Some? <==> Survives(time)(ps[0]);
  }

  /** The inductive step of UpdateAllSurvivors: the first particle's outcome prepended to the rest. */
  lemma SurvivorsStep(ps: seq<Particle>, base: nat, time: int, tween: Tween, us: seq<real>,
                      rest: seq<nat>, tail: seq<Particle>, head: seq<nat>, out: seq<Particle>)
    requires ps != [] && |us| >= |ps| && UnitDraws(us)
    requires |head| == |out| <= 1
    requires |head| == 1 ==> head[0] == base && Update(ps[0], time, tween, us[0]) == Some(out[0])
    requires UpdatesAt(ps[1..], base + 1, rest, tail, time, tween, us[1..])
    ensures UpdatesAt(ps, base, head + rest, out + tail, time, tween, us)
  {
    var kept := head + rest;
    var r := out + tail;
    forall j | 0 <= j < |kept|
      ensures base <= kept[j] < base + |ps|
      ensures Update(ps[kept[j] - base], time, tween, us[kept[j] - base]) == Some(r[j])
    {
      if j >= |head| {
        assert kept[j] == rest[j - |head|] && r[j] == tail[j - |head|];
        SurvivorShifted(ps, base, time, tween, us, rest, tail, j - |head|);
      }
    }
  }

  /** A survivor of the tail is a survivor of the whole list, one position on. */
  lemma SurvivorShifted(ps: seq<Particle>, base: nat, time: int, tween: Tween, us: seq<real>,
                        rest: seq<nat>, tail: seq<Particle>, i: nat)
    requires ps != [] && |us| >= |ps| && UnitDraws(us)
    requires UpdatesAt(ps[1..], base + 1, rest, tail, time, tween, us[1..])
    requires i < |rest|
    ensures base < rest[i] < base + |ps|
    ensures Update(ps[rest[i] - base], time, tween, us[rest[i] - base]) == Some(tail[i])
  {
    assert ps[rest[i] - base] == ps[1..][rest[i] - (base + 1)];
    assert us[rest[i] - base] == us[1..][rest[i] - (base + 1)];
  }

  /** When every particle is a rocket whose flight is over, all of them burst, in place. */
  lemma {:induction false} RocketsBurst(ps: seq<Particle>, time: int, tween: Tween, us: seq<real>)
    requires |us| >= |ps| && UnitDraws(us)
    requires forall k :: 0 <= k < |ps| ==> ps[k].Rocket? && IsDead(ps[k], time)
    ensures var r := UpdateAll(ps, time, tween, us);
      && |r| == |ps|
      && forall k :: 0 <= k < |r| ==>
        && r[k].Star? && Parked(r[k], ps[k].target) && r[k].createdAt == time
        && StarMinLifeTime <= r[k].lifetimeMillis <= StarMaxLifeTime
    decreases |ps|
  {
    if ps != [] {
      RocketsBurst(ps[1..], time, tween, us[1..]);
      var r := UpdateAll(ps, time, tween, us);
      var tail := UpdateAll(ps[1..], time, tween, us[1..]);
      assert r == [Update(ps[0], time, tween, us[0]).value] + tail;
      forall k | 1 <= k < |r|
        ensures r[k] == tail[k - 1] && ps[k] == ps[1..][k - 1]
      {
      }
    }
  }

  /** When every particle is a star whose life is over, all of them fade into poofs, in place. */
  lemma {:induction false} StarsFade(ps: seq<Particle>, time: int, tween: Tween, us: seq<real>)
    requires |us| >= |ps| && UnitDraws(us)
    requires forall k :: 0 <= k < |ps| ==> ps[k].Star? && IsDead(ps[k], time)
    ensures var r := UpdateAll(ps, time, tween, us);
      && |r| == |ps|
      && forall k :: 0 <= k < |r| ==>
        r[k].Poof? && Parked(r[k], ps[k].target) && r[k].createdAt == time && r[k].lifetimeMillis == PoofLifeTime
    decreases |ps|
  {
    if ps != [] {
      StarsFade(ps[1..], time, tween, us[1..]);
      var r := UpdateAll(ps, time, tween, us);
      var tail := UpdateAll(ps[1..], time, tween, us[1..]);
      assert r == [Update(ps[0], time, tween, us[0]).value] + tail;
      forall k | 1 <= k < |r|
        ensures r[k] == tail[k - 1] && ps[k] == ps[1..][k - 1]
      {
      }
    }
  }

  /** When every particle is a poof whose life is over, the population empties. */
  lemma {:induction false} PoofsVanish(ps: seq<Particle>, time: int, tween: Tween, us: seq<real>)
    requires |us| >= |ps| && UnitDraws(us)
    requires forall k :: 0 <= k < |ps| ==> ps[k].Poof? && IsDead(ps[k], time)
    ensures UpdateAll(ps, time, tween, us) == []
    decreases |ps|
  {
    if ps != [] {
      PoofsVanish(ps[1..], time, tween, us[1..]);
    }
  }

  /** Every particle of `ps` sits on its target. */
  predicate AllParked(ps: seq<Particle>) {
    forall k :: 0 <= k < |ps| ==> Parked(ps[k], ps[k].target)
  }

  /**
   Particles sitting on their targets stay there through the list update:
   every burst star and every poof keeps still until it is removed.
   */
  lemma {:induction false} ParkedStayParked(ps: seq<Particle>, time: int, tween: Tween, us: seq<real>)
    requires |us| >= |ps| && UnitDraws(us)
    requires StillWhenParked(tween)
    requires AllParked(ps)
    ensures AllParked(UpdateAll(ps, time, tween, us))
    decreases |ps|
  {
    if ps != [] {
      assert AllParked(ps[1..]) by {
        forall k | 0 <= k < |ps[1..]| ensures Parked(ps[1..][k], ps[1..][k].target) {
          assert ps[1..][k] == ps[k + 1];
        }
      }
      ParkedStayParked(ps[1..], time, tween, us[1..]);
      var tail := UpdateAll(ps[1..], time, tween, us[1..]);
      var q := Update(ps[0], time, tween, us[0]);
      if q.Some? {
        assert Parked(q.value, q.value.target);
        var r := UpdateAll(ps, time, tween, us);
        assert r == [q.value] + tail;
        forall k | 1 <= k < |r| ensures Parked(r[k], r[k].target) {
          assert r[k] == tail[k - 1];
        }
      } else {
        assert UpdateAll(ps, time, tween, us) == tail;
      }
    }
  }

  // ---------------------------------------------------------------------------
  // Generating the population

  /** A nonzero bitmap cell asks for a rocket. */
  predicate IsSet(cell: int) {
    cell != 0
  }

  /** The bitmap positions that get a rocket, in increasing order. */
  const RocketCells: seq<nat> := Select(YearPicture, IsSet, 0)

  /** The number of set cells in `bits`. */
  function SetCells(bits: seq<int>): nat {
    if bits == [] then 0 else (if IsSet(bits[0]) then 1 else 0) + SetCells(bits[1..])
  }

  /** Select picks one position per set cell. */
  lemma {:induction false} SelectCountsSetCells(bits: seq<int>, base: nat)
    ensures |Select(bits, IsSet, base)| == SetCells(bits)
    decreases |bits|
  {
    if bits != [] {
      SelectCountsSetCells(bits[1..], base + 1);
    }
  }

  /** Set cells of a concatenation add up. */
  lemma {:induction false} SetCellsAppend(a: seq<int>, b: seq<int>)
    ensures SetCells(a + b) == SetCells(a) + SetCells(b)
    decreases |a|
  {
    if a == [] {
      assert a + b == b;
    } else {
      assert (a + b)[1..] == a[1..] + b;
      SetCellsAppend(a[1..], b);
    }
  }

  /** The formation has 39 lit cells. */
  lemma RocketCellCount()
    ensures |RocketCells| == 39
  {
    SetCellsAppend(YearRow0, YearRow1);
    SetCellsAppend(YearRow0 + YearRow1, YearRow2);
    SetCellsAppend(YearRow0 + YearRow1 + YearRow2, YearRow3);
    SetCellsAppend(YearRow0 + YearRow1 + YearRow2 + YearRow3, YearRow4);
    Row0Count(); Row1Count(); Row2Count(); Row3Count(); Row4Count();
    SelectCountsSetCells(YearPicture, 0);
  }

  // The lit cells of the formation, counted row by row, each row in two halves:
  // the split keeps each proof obligation small enough for the prover to unroll.

  lemma Row0Count()
    ensures SetCells(YearRow0) == 9
  {
    assert YearRow0 == [1, 1, 1, 0, 0, 1, 0, 0] + [1, 1, 1, 0, 1, 0, 1];
    SetCellsAppend([1, 1, 1, 0, 0, 1, 0, 0], [1, 1, 1, 0, 1, 0, 1]);
    Row0Left();
    Row0Right();
  }

  lemma Row0Left() ensures SetCells([1, 1, 1, 0, 0, 1, 0, 0]) == 4 { }
  lemma Row0Right() ensures SetCells([1, 1, 1, 0, 1, 0, 1]) == 5 { }

  lemma Row1Count()
    ensures SetCells(YearRow1) == 6
  {
    assert YearRow1 == [0, 0, 1, 0, 1, 0, 1, 0] + [0, 0, 1, 0, 1, 0, 1];
    SetCellsAppend([0, 0, 1, 0, 1, 0, 1, 0], [0, 0, 1, 0, 1, 0, 1]);
    Row1Left();
    Row1Right();
  }

  lemma Row1Left() ensures SetCells([0, 0, 1, 0, 1, 0, 1, 0]) == 3 { }
  lemma Row1Right() ensures SetCells([0, 0, 1, 0, 1, 0, 1]) == 3 { }

  lemma Row2Count()
    ensures SetCells(YearRow2) == 11
  {
    assert YearRow2 == [1, 1, 1, 0, 1, 0, 1, 0] + [1, 1, 1, 0, 1, 1, 1];
    SetCellsAppend([1, 1, 1, 0, 1, 0, 1, 0], [1, 1, 1, 0, 1, 1, 1]);
    Row2Left();
    Row2Right();
  }

  lemma Row2Left() ensures SetCells([1, 1, 1, 0, 1, 0, 1, 0]) == 5 { }
  lemma Row2Right() ensures SetCells([1, 1, 1, 0, 1, 1, 1]) == 6 { }

  lemma Row3Count()
    ensures SetCells(YearRow3) == 5
  {
    assert YearRow3 == [1, 0, 0, 0, 1, 0, 1, 0] + [1, 0, 0, 0, 0, 0, 1];
    SetCellsAppend([1, 0, 0, 0, 1, 0, 1, 0], [1, 0, 0, 0, 0, 0, 1]);
    Row3Left();
    Row3Right();
  }

  lemma Row3Left() ensures SetCells([1, 0, 0, 0, 1, 0, 1, 0]) == 3 { }
  lemma Row3Right() ensures SetCells([1, 0, 0, 0, 0, 0, 1]) == 2 { }

  lemma Row4Count()
    ensures SetCells(YearRow4) == 8
  {
    assert YearRow4 == [1, 1, 1, 0, 0, 1, 0, 0] + [1, 1, 1, 0, 0, 0, 1];
    SetCellsAppend([1, 1, 1, 0, 0, 1, 0, 0], [1, 1, 1, 0, 0, 0, 1]);
    Row4Left();
    Row4Right();
  }

  lemma Row4Left() ensures SetCells([1, 1, 1, 0, 0, 1, 0, 0]) == 4 { }
  lemma Row4Right() ensures SetCells([1, 1, 1, 0, 0, 0, 1]) == 4 { }

  /** Where the formation's cells lie: the destination's corner and the cell size. */
  datatype Grid = Grid(left: Int32, top: Int32, cellWidth: Int32, cellHeight: Int32)

  /** The grid laid over the destination: 15 columns and 75 / 15 = 5 rows, in `Int` arithmetic. */
  function GridOf(to: Rect): (g: Grid)
    ensures g.left == to.left && g.top == to.top
    // for a non-negative extent, 15 columns and 5 rows of the rounded-down size fit, and a cell one unit
    // wider (resp. taller) would not (less than 15, resp. 5, units to spare)
    ensures to.Width() >= 0 ==> 0 <= g.cellWidth && g.cellWidth * 15 <= to.Width() < g.cellWidth * 15 + 15
    ensures to.Height() >= 0 ==> 0 <= g.cellHeight && g.cellHeight * 5 <= to.Height() < g.cellHeight * 5 + 5
  {
    Grid(to.left, to.top,
         Quot(to.Width(), YearPictureWidth),
         Quot(to.Height(), |YearPicture| / YearPictureWidth))
  }

  /** The top-left corner of bitmap cell `index`, in `Int` arithmetic. */
  function CellCorner(g: Grid, index: nat): V
    requires index < |YearPicture|
  {
    FromInts(Add32(g.left, Mul32(index % YearPictureWidth, g.cellWidth)),
             Add32(g.top, Mul32(index / YearPictureWidth, g.cellHeight)))
  }

  /**
   For a destination whose extent is non-negative and does not overflow an
   `Int`, cell `index` has its corner at
   (left + column * (width / 15), top + row * (height / 5)),
   which lies inside the destination.
   */
  lemma CellCornerInside(to: Rect, index: nat)
    requires index < |YearPicture|
    requires 0 <= to.right - to.left < TWO_31 && 0 <= to.bottom - to.top < TWO_31
    ensures var c := CellCorner(GridOf(to), index);
      var col, row := index % YearPictureWidth, index / YearPictureWidth;
      && c.x == (to.left + col * ((to.right - to.left) / 15)) as real
      && c.y == (to.top + row * ((to.bottom - to.top) / 5)) as real
      && to.left as real <= c.x <= to.right as real
      && to.top as real <= c.y <= to.bottom as real
  {
    var g := GridOf(to);
    var w, h := to.right - to.left, to.bottom - to.top;
    var col, row := index % YearPictureWidth, index / YearPictureWidth;
    assert g.cellWidth == w / 15 && g.cellHeight == h / 5;
    ScaledCellFits(col, 14, w, 15);
    ScaledCellFits(row, 4, h, 5);
  }

  /** `k` cells of size `n / d` fit into `n` when `k < d`. */
  lemma ScaledCellFits(k: nat, kMax: nat, n: nat, d: nat)
    requires k <= kMax && kMax + 1 == d
    ensures 0 <= k * (n / d) <= n
  {
    var c := n / d;
    assert d * c <= n;
    MulMono(k, d, c);
  }

  /** A 150 x 50 destination has 10 x 10 cells: cell 16 (row 1, column 1) is at (left + 10, top + 10). */
  lemma GridExample(to: Rect)
    requires to.right - to.left == 150 && to.bottom - to.top == 50
    ensures GridOf(to).cellWidth == 10 && GridOf(to).cellHeight == 10
    ensures CellCorner(GridOf(to), 16) == V((to.left + 10) as real, (to.top + 10) as real)
  {
    CellCornerInside(to, 16);
  }

  /** The launch delay, drawn from `u`, a result of `Math.random()`. */
  function LaunchDelay(u: real): (d: int)
    requires 0.0 <= u < 1.0
    ensures 0 <= d <= FlightTimeStartDerivation
  {
    Draw(u, FlightTimeStartDerivation)
  }

  /**
   The rocket for bitmap cell `index`, generated at `time`, starting from
   `start`, launch delay drawn from `u`: its delay and flight time are
   coupled so that it arrives at `time + FlightTime` whatever the delay.
   */
  function MakeRocket(g: Grid, index: nat, time: int, start: V, u: real): (r: Particle)
    requires index < |YearPicture|
    requires 0.0 <= u < 1.0
    ensures r.Rocket? && r.initial == start && r.position == start && r.rotationInDegrees == 0.0
    ensures r.target == CellCorner(g, index)
    ensures r.createdAt + r.lifetimeMillis == time + FlightTime
    ensures time <= r.createdAt <= time + FlightTimeStartDerivation
    ensures FlightTime - FlightTimeStartDerivation <= r.lifetimeMillis <= FlightTime
  {
    var delay := LaunchDelay(u);
    Rocket(start, CellCorner(g, index), time + delay, FlightTime - delay, start, 0.0)
  }

  /**
   `mapIndexedNotNull` over the bitmap cells `bits`, the first of which is
   cell `base`: one rocket per set cell, taking the next start point and
   the next random draw.
   */
  function Layout(bits: seq<int>, base: nat, g: Grid, time: int, starts: seq<V>, us: seq<real>): seq<Particle>
    requires base + |bits| <= |YearPicture|
    requires |starts| >= |Select(bits, IsSet, base)| && |us| >= |Select(bits, IsSet, base)| && UnitDraws(us)
    decreases |bits|
  {
    if bits == [] then []
    else if !IsSet(bits[0]) then Layout(bits[1..], base + 1, g, time, starts, us)
    else [MakeRocket(g, base, time, starts[0], us[0])] + Layout(bits[1..], base + 1, g, time, starts[1..], us[1..])
  }

  /** `r` holds, in order, the rocket for each of `cells`, with the matching start point and draw. */
  predicate RocketsFor(cells: seq<nat>, r: seq<Particle>, g: Grid, time: int, starts: seq<V>, us: seq<real>)
    requires |starts| >= |cells| && |us| >= |cells| && UnitDraws(us)
  {
    && |r| == |cells|
    && forall k :: 0 <= k < |cells| ==>
      cells[k] < |YearPicture| && r[k] == MakeRocket(g, cells[k], time, starts[k], us[k])
  }

  /** Layout makes the `k`-th rocket for the `k`-th set cell, and nothing else. */
  lemma {:induction false} LayoutRockets(bits: seq<int>, base: nat, g: Grid, time: int, starts: seq<V>, us: seq<real>)
    requires base + |bits| <= |YearPicture|
    requires |starts| >= |Select(bits, IsSet, base)| && |us| >= |Select(bits, IsSet, base)| && UnitDraws(us)
    ensures RocketsFor(Select(bits, IsSet, base), Layout(bits, base, g, time, starts, us), g, time, starts, us)
    decreases |bits|
  {
    if bits != [] {
      var rest := Select(bits[1..], IsSet, base + 1);
      if !IsSet(bits[0]) {
        LayoutRockets(bits[1..], base + 1, g, time, starts, us);
        assert Select(bits, IsSet, base) == rest;
      } else {
        LayoutRockets(bits[1..], base + 1, g, time, starts[1..], us[1..]);
        assert Select(bits, IsSet, base) == [base] + rest;
        RocketsForCons(rest, Layout(bits[1..], base + 1, g, time, starts[1..], us[1..]), base, g, time, starts, us);
      }
    }
  }

  /** Prepending the rocket for cell `base`, made with the first start point and draw. */
  lemma RocketsForCons(rest: seq<nat>, tail: seq<Particle>, base: nat, g: Grid, time: int, starts: seq<V>, us: seq<real>)
    requires base < |YearPicture|
    requires |starts| >= |rest| + 1 && |us| >= |rest| + 1 && UnitDraws(us)
    requires RocketsFor(rest, tail, g, time, starts[1..], us[1..])
    ensures RocketsFor([base] + rest, [MakeRocket(g, base, time, starts[0], us[0])] + tail, g, time, starts, us)
  {
    var cells := [base] + rest;
    var r := [MakeRocket(g, base, time, starts[0], us[0])] + tail;
    forall k | 1 <= k < |cells|
      ensures cells[k] < |YearPicture| && r[k] == MakeRocket(g, cells[k], time, starts[k], us[k])
    {
      assert r[k] == tail[k - 1] && cells[k] == rest[k - 1];
      assert starts[k] == starts[1..][k - 1] && us[k] == us[1..][k - 1];
    }
  }

  /**
   `generateParticles(from, to)` at clock reading `time`: one rocket per lit
   cell of the formation, in cell order, each aimed at its cell's corner in
   `to`, starting from `starts[k]` (the random points in `from`) with launch
   delay drawn from `us[k]`; all arrive at `time + FlightTime`.
   */
  function GenerateParticles(to: Rect, time: int, starts: seq<V>, us: seq<real>): (r: seq<Particle>)
    requires |starts| >= |RocketCells| && |us| >= |RocketCells| && UnitDraws(us)
    ensures |r| == |RocketCells| == 39
    ensures forall k :: 0 <= k < |r| ==>
      && r[k].Rocket?
      && r[k].target == CellCorner(GridOf(to), RocketCells[k])
      && r[k].initial == r[k].position == starts[k]
      && r[k].rotationInDegrees == 0.0
      && r[k].createdAt + r[k].lifetimeMillis == time + FlightTime
      && time <= r[k].createdAt <= time + FlightTimeStartDerivation
      && FlightTime - FlightTimeStartDerivation <= r[k].lifetimeMillis <= FlightTime
  {
    LayoutRockets(YearPicture, 0, GridOf(to), time, starts, us);
    RocketCellCount();
    Layout(YearPicture, 0, GridOf(to), time, starts, us)
  }

  /**
   A generated population is gone after three ticks: one once every rocket
   has arrived, one once the longest star life has passed since, and one
   once the poof life has passed after that.
   */
  lemma GeneratedPopulationBurnsOut(
    to: Rect, time: int, starts: seq<V>, us: seq<real>, tween: Tween,
    t1: int, us1: seq<real>, t2: int, us2: seq<real>, t3: int, us3: seq<real>)
    requires |starts| >= |RocketCells| && |us| >= |RocketCells| && UnitDraws(us)
    requires |us1| >= |RocketCells| && UnitDraws(us1)
    requires |us2| >= |RocketCells| && UnitDraws(us2)
    requires |us3| >= |RocketCells| && UnitDraws(us3)
    requires t1 >= time + FlightTime && t2 >= t1 + StarMaxLifeTime && t3 >= t2 + PoofLifeTime
    ensures var rockets := GenerateParticles(to, time, starts, us);
      var stars := UpdateAll(rockets, t1, tween, us1);
      var poofs := UpdateAll(stars, t2, tween, us2);
      UpdateAll(poofs, t3, tween, us3) == []
  {
    var rockets := GenerateParticles(to, time, starts, us);
    RocketsBurst(rockets, t1, tween, us1);
    var stars := UpdateAll(rockets, t1, tween, us1);
    StarsFade(stars, t2, tween, us2);
    var poofs := UpdateAll(stars, t2, tween, us2);
    PoofsVanish(poofs, t3, tween, us3);
  }

}
