/**
 The activity around the engine: decoding the bounds handed over by the
 accessibility service, choosing between the fireworks and the fallback
 screen, and the frame loop that runs the population down.
 */
module Fireworks {
  import opened Wrappers
  import opened Numerics
  import opened Geometry
  import opened Particles

  // ---------------------------------------------------------------------------
  // Bounds

  /**
   `IntArray?.toRect()`: a missing array, or one with fewer than four
   entries, gives the empty rect; otherwise the first four entries are the
   left, top, right and bottom edges and the rest is ignored.
   */
  function ToRect(a: Option<seq<Int32>>): (r: Rect)
    ensures a.None? || |a.value| < 4 ==> r == EmptyRect
    ensures a.Some? && |a.value| >= 4 ==>
      r.left == a.value[0] && r.top == a.value[1] && r.right == a.value[2] && r.bottom == a.value[3]
  {
    match a
    case None => EmptyRect
    case Some(xs) => if |xs| < 4 then EmptyRect else Rect(xs[0], xs[1], xs[2], xs[3])
  }

  /** `Rect.toIntArray()`, the service's encoder: decoding its output gives the rect back. */
  function ToIntArray(r: Rect): (a: seq<Int32>)
    ensures |a| == 4
    ensures ToRect(Some(a)) == r
  {
    [r.left, r.top, r.right, r.bottom]
  }

  /** Encoding a decoded four-entry array gives the array back. */
  lemma EncodeDecoded(a: seq<Int32>)
    requires |a| == 4
    ensures ToIntArray(ToRect(Some(a))) == a
  {
    assert a == [a[0], a[1], a[2], a[3]];
  }

  /** Entries after the fourth do not matter. */
  lemma ToRectIgnoresTail(a: seq<Int32>, extra: seq<Int32>)
    requires |a| >= 4
    ensures ToRect(Some(a + extra)) == ToRect(Some(a))
  {
    assert (a + extra)[..4] == a[..4];
    assert (a + extra)[0] == a[0] && (a + extra)[1] == a[1] && (a + extra)[2] == a[2] && (a + extra)[3] == a[3];
  }

  /** `Rect.isSane()`: positive width and height, each computed in `Int` arithmetic. */
  predicate IsSane(r: Rect) {
    r.Width() > 0 && r.Height() > 0
  }

  /**
   An `Int` difference `b - a` is positive exactly when the true difference
   is positive and fits, or is so negative that it wraps around.
   */
  lemma {:induction false} SubPositive(b: Int32, a: Int32)
    ensures Sub32(b, a) > 0 <==> (0 < b - a < TWO_31 || b - a < -TWO_31)
  {
    var d := b - a;
    assert InInt32(a) && InInt32(b);
    if d >= TWO_31 {
      assert Sub32(b, a) == d - TWO_32;
    } else if d < -TWO_31 {
      assert Sub32(b, a) == d + TWO_32;
    } else {
      assert Sub32(b, a) == d;
    }
  }

  /** Sanity in terms of the edges: each extent positive without overflow, or wrapped around. */
  lemma SaneEdges(r: Rect)
    ensures IsSane(r) <==>
      && (0 < r.right - r.left < TWO_31 || r.right - r.left < -TWO_31)
      && (0 < r.bottom - r.top < TWO_31 || r.bottom - r.top < -TWO_31)
  {
    SubPositive(r.right, r.left);
    SubPositive(r.bottom, r.top);
  }

  /** When neither extent overflows, a rect is sane exactly when right > left and bottom > top. */
  lemma SaneIffOrdered(r: Rect)
    requires InInt32(r.right - r.left) && InInt32(r.bottom - r.top)
    ensures IsSane(r) <==> r.left < r.right && r.top < r.bottom
  {
    SaneEdges(r);
  }

  /** The empty rect is not sane. */
  lemma EmptyRectNotSane()
    ensures !IsSane(EmptyRect)
  {
  }

  /** An inverted rect whose width overflows passes the guard: `Int` width wraps to 2147483647. */
  lemma InvertedRectPassesGuard()
    ensures var r := Rect(1, 0, -0x8000_0000, 1);
      r.right < r.left && IsSane(r) && r.Width() == 0x7FFF_FFFF
  {
    var r := Rect(1, 0, -0x8000_0000, 1);
    assert r.Width() == Wrap32(-0x8000_0001);
    SaneEdges(r);
  }

  /** The two screens the activity can show. */
  datatype Screen = FireworksScreen(from: Rect) | HowToAccessibilityInfo

  /**
   `onCreate`: the `"rect"` extra (absent when not sent) decoded and
   guarded; fireworks start from the decoded bounds exactly when they are
   sane, and the how-to screen is shown otherwise.
   */
  function ScreenFor(extra: Option<seq<Int32>>): (s: Screen)
    ensures s.FireworksScreen? <==> IsSane(ToRect(extra))
    ensures s.FireworksScreen? ==> s.from == ToRect(extra)
  {
    var bounds := ToRect(extra);
    if IsSane(bounds) then FireworksScreen(bounds) else HowToAccessibilityInfo
  }

  /** A missing or short bounds array always leads to the how-to screen. */
  lemma MissingBoundsFallBack(extra: Option<seq<Int32>>)
    requires extra.None? || |extra.value| < 4
    ensures ScreenFor(extra) == HowToAccessibilityInfo
  {
    EmptyRectNotSane();
  }

  /** Bounds sent by the service start the fireworks from that very rect exactly when it is sane. */
  lemma SentBoundsReachFireworks(r: Rect)
    ensures ScreenFor(Some(ToIntArray(r))) == (if IsSane(r) then FireworksScreen(r) else HowToAccessibilityInfo)
  {
  }

  // ---------------------------------------------------------------------------
  // The session loop

  /** The time budget of a fireworks session, in milliseconds. */
  const SessionBudget: int := 5000

  /**
   What the environment supplies to one loop iteration: the clock reading
   taken by the list update, its random draws, and the two clock readings
   that follow (the one subtracted from the budget and the one kept as `last`).
   */
  datatype Frame = Frame(tickTime: int, draws: seq<real>, measuredAt: int, restartAt: int)

  /** The loop's variables: the remaining budget, the population and the last clock reading. */
  datatype Session = Session(timeLeft: int, particles: seq<Particle>, last: int)

  /** The loop condition: budget left and particles left. */
  predicate Running(s: Session) {
    s.timeLeft > 0 && s.particles != []
  }

  /** Every frame has a valid draw for each of up to `n` particles. */
  predicate DrawsCover(frames: seq<Frame>, n: nat) {
    forall k :: 0 <= k < |frames| ==> |frames[k].draws| >= n && UnitDraws(frames[k].draws)
  }

  /** One iteration of the loop body: update the population, charge the elapsed time, reset `last`. */
  function Tick(s: Session, f: Frame, tween: Tween): (r: Session)
    requires |f.draws| >= |s.particles| && UnitDraws(f.draws)
    ensures r.particles == UpdateAll(s.particles, f.tickTime, tween, f.draws)
    ensures |r.particles| <= |s.particles|
    ensures r.timeLeft == s.timeLeft - (f.measuredAt - s.last)
    ensures r.last == f.restartAt
  {
    Session(s.timeLeft - (f.measuredAt - s.last), UpdateAll(s.particles, f.tickTime, tween, f.draws), f.restartAt)
  }

  /** The session after running the loop body once for each of the first `n` frames; it never grows. */
  function Replay(s: Session, frames: seq<Frame>, n: nat, tween: Tween): (r: Session)
    requires n <= |frames| && DrawsCover(frames, |s.particles|)
    ensures |r.particles| <= |s.particles|
  {
    if n == 0 then s
    else Tick(Replay(s, frames, n - 1, tween), frames[n - 1], tween)
  }

  /** The state of the loop when it is entered: the opening update done and `last` read. */
  function Opening(population: seq<Particle>, openTime: int, openDraws: seq<real>, openClock: int, tween: Tween): (s: Session)
    requires |openDraws| >= |population| && UnitDraws(openDraws)
    ensures s.timeLeft == SessionBudget && s.last == openClock && |s.particles| <= |population|
    ensures s.particles == UpdateAll(population, openTime, tween, openDraws)
  {
    Session(SessionBudget, UpdateAll(population, openTime, tween, openDraws), openClock)
  }

  /**
   The `LaunchedEffect` body of `Fireworks`: one update, then while budget
   and particles are left, update and charge the measured time. The loop
   also stops when the supplied frames run out. On return the state is the
   replay of the frames used, the loop condition held before each of them,
   and it fails at the end unless every frame was used.
   */
  method RunSession(population: seq<Particle>, openTime: int, openDraws: seq<real>, openClock: int,
                    frames: seq<Frame>, tween: Tween)
    returns (particles: seq<Particle>, timeLeft: int, last: int, ticks: nat)
    requires |openDraws| >= |population| && UnitDraws(openDraws)
    requires DrawsCover(frames, |population|)
    ensures ticks <= |frames|
    ensures var start := Opening(population, openTime, openDraws, openClock, tween);
      && Session(timeLeft, particles, last) == Replay(start, frames, ticks, tween)
      && (forall k :: 0 <= k < ticks ==> Running(Replay(start, frames, k, tween)))
      && (ticks == |frames| || !Running(Session(timeLeft, particles, last)))
  {
    var start := Opening(population, openTime, openDraws, openClock, tween);
    timeLeft := SessionBudget;
    particles := UpdateAll(population, openTime, tween, openDraws);
    last := openClock;
    ticks := 0;
    while timeLeft > 0 && particles != [] && ticks < |frames|
      invariant ticks <= |frames|
      invariant Session(timeLeft, particles, last) == Replay(start, frames, ticks, tween)
      invariant forall k :: 0 <= k < ticks ==> Running(Replay(start, frames, k, tween))
      decreases |frames| - ticks
    {
      var f := frames[ticks];
      particles := UpdateAll(particles, f.tickTime, tween, f.draws);
      timeLeft := timeLeft - (f.measuredAt - last);
      last := f.restartAt;
      ticks := ticks + 1;
    }
  }

  /**
   When each frame reads the clock once for both the budget and `last`, the
   budget charged over a replay is the wall-clock time from the opening
   reading to the last frame's reading.
   */
  lemma {:induction false} BudgetTelescopes(s: Session, frames: seq<Frame>, n: nat, tween: Tween)
    requires n <= |frames| && DrawsCover(frames, |s.particles|)
    requires forall k :: 0 <= k < |frames| ==> frames[k].measuredAt == frames[k].restartAt
    ensures var r := Replay(s, frames, n, tween);
      r.timeLeft == s.timeLeft - (r.last - s.last)
  {
    if n > 0 {
      BudgetTelescopes(s, frames, n - 1, tween);
    }
  }

  /**
   When every frame's budget reading is at least 1 ms after the previous
   `last`, each iteration charges at least 1 ms: after `n` frames the
   budget has dropped by at least `n`.
   */
  lemma {:induction false} BudgetShrinks(s: Session, frames: seq<Frame>, n: nat, tween: Tween)
    requires n <= |frames| && DrawsCover(frames, |s.particles|)
    requires |frames| > 0 ==> frames[0].measuredAt >= s.last + 1
    requires forall k :: 0 < k < |frames| ==> frames[k].measuredAt >= frames[k - 1].restartAt + 1
    ensures Replay(s, frames, n, tween).timeLeft <= s.timeLeft - n
    ensures n > 0 ==> Replay(s, frames, n, tween).last == frames[n - 1].restartAt
  {
    if n > 0 {
      BudgetShrinks(s, frames, n - 1, tween);
    }
  }

  /**
   With clock readings at least 1 ms apart, the 5000 ms budget stops the
   loop after at most 5000 iterations, whatever the particles do.
   */
  lemma BudgetEndsSession(population: seq<Particle>, openTime: int, openDraws: seq<real>, openClock: int,
                          frames: seq<Frame>, tween: Tween)
    requires |openDraws| >= |population| && UnitDraws(openDraws)
    requires DrawsCover(frames, |population|)
    requires |frames| >= SessionBudget
    requires frames[0].measuredAt >= openClock + 1
    requires forall k :: 0 < k < |frames| ==> frames[k].measuredAt >= frames[k - 1].restartAt + 1
    ensures !Running(Replay(Opening(population, openTime, openDraws, openClock, tween), frames, SessionBudget, tween))
  {
    BudgetShrinks(Opening(population, openTime, openDraws, openClock, tween), frames, SessionBudget, tween);
  }

}
