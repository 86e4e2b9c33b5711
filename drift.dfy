/** The per-tick drift of the arena (src/main.rs, move_big_ball), stated as
    functions of the state before the tick, with the properties the controller
    promises proved about them. The class `Simulation.World` performs the same
    tick in place and is proved against `Advance`. */
module Drift {
  import opened Geometry
  import opened Arena

  /** The inputs of one tick: the elapsed time and the window size. */
  datatype Frame = Frame(dt: real, width: real, height: real)

  /** Whether the arena disc, centred at coordinate `p` along one axis, touches
      or passes either edge of a window whose size along that axis is `extent`. */
  predicate ReachesEdge(p: real, extent: real) {
    p + Radius >= extent / 2.0 || p - Radius <= -extent / 2.0
  }

  /** Where the core would be after this tick if its velocity did not change. */
  function LookAhead(c: Core, dt: real): Vec3 {
    Add(c.transform.translation, Scale(Extend(c.velocity), dt))
  }

  /** The core's velocity after reflection: each component is negated when the
      look-ahead position reaches an edge along that axis. */
  function Reflected(c: Core, dt: real, width: real, height: real): Vec2 {
    var f := LookAhead(c, dt);
    Vec2(if ReachesEdge(f.x, width) then -c.velocity.x else c.velocity.x,
         if ReachesEdge(f.y, height) then -c.velocity.y else c.velocity.y)
  }

  /** The displacement a core applies in this tick: its reflected velocity
      times the elapsed time. */
  function Displacement(c: Core, dt: real, width: real, height: real): Vec3 {
    Scale(Extend(Reflected(c, dt, width, height)), dt)
  }

  function StepCore(c: Core, dt: real, width: real, height: real): Core {
    Core(Reflected(c, dt, width, height), Shift(c.transform, Displacement(c, dt, width, height)))
  }

  /** The displacement carried over to the edges: that of the last core
      visited, or zero when there is no core. */
  function EdgeDisplacement(cores: seq<Core>, dt: real, width: real, height: real): Vec3 {
    if |cores| == 0 then Zero3 else Displacement(cores[|cores| - 1], dt, width, height)
  }

  function StepEdge(e: Segment, d: Vec3): Segment {
    e.(transform := Shift(e.transform, d))
  }

  /** The state after one tick. */
  function Advance(s: State, dt: real, width: real, height: real): State {
    var d := EdgeDisplacement(s.cores, dt, width, height);
    State(seq(|s.cores|, k requires 0 <= k < |s.cores| => StepCore(s.cores[k], dt, width, height)),
          seq(|s.edges|, k requires 0 <= k < |s.edges| => StepEdge(s.edges[k], d)))
  }

  /** The state after a sequence of ticks, in order. */
  function Run(s: State, frames: seq<Frame>): State
    decreases |frames|
  {
    if frames == [] then s
    else Run(Advance(s, frames[0].dt, frames[0].width, frames[0].height), frames[1..])
  }

  function Last(cores: seq<Core>): Core
    requires |cores| > 0
  {
    cores[|cores| - 1]
  }

  // ---------------------------------------------------------------------------
  // One tick

  /** Each velocity component is negated exactly when the look-ahead coordinate
      along its axis, plus or minus the arena radius, reaches that axis's
      window half-extent; otherwise it is kept. Both may flip in one tick. */
  lemma ReflectionRule(c: Core, dt: real, width: real, height: real)
    ensures var v, v' := c.velocity, Reflected(c, dt, width, height);
            var fx := c.transform.translation.x + v.x * dt;
            var fy := c.transform.translation.y + v.y * dt;
            && (fx + Radius >= width / 2.0 || fx - Radius <= -width / 2.0 ==> v'.x == -v.x)
            && (fx + Radius < width / 2.0 && fx - Radius > -width / 2.0 ==> v'.x == v.x)
            && (fy + Radius >= height / 2.0 || fy - Radius <= -height / 2.0 ==> v'.y == -v.y)
            && (fy + Radius < height / 2.0 && fy - Radius > -height / 2.0 ==> v'.y == v.y)
  {
  }

  /** The x component of the reflection depends only on the core's x
      position, its x velocity and the window width; likewise for y. */
  lemma AxesIndependent(c1: Core, c2: Core, dt: real, w1: real, h1: real, w2: real, h2: real)
    ensures c1.velocity.x == c2.velocity.x && c1.transform.translation.x == c2.transform.translation.x && w1 == w2
            ==> Reflected(c1, dt, w1, h1).x == Reflected(c2, dt, w2, h2).x
    ensures c1.velocity.y == c2.velocity.y && c1.transform.translation.y == c2.transform.translation.y && h1 == h2
            ==> Reflected(c1, dt, w1, h1).y == Reflected(c2, dt, w2, h2).y
  {
  }

  /** Reflection changes at most the sign of each velocity component. */
  lemma SignOnlyChange(c: Core, dt: real, width: real, height: real)
    ensures var v, v' := c.velocity, Reflected(c, dt, width, height);
            && (v'.x == v.x || v'.x == -v.x) && Abs(v'.x) == Abs(v.x)
            && (v'.y == v.y || v'.y == -v.y) && Abs(v'.y) == Abs(v.y)
  {
  }

  /** The core stores the reflected velocity and moves by that velocity times
      `dt`, so on an axis where it reflected (and `dt` is non-zero) it does not
      arrive at its look-ahead coordinate. Its rotation and depth never change. */
  lemma StepUsesReflectedVelocity(c: Core, dt: real, width: real, height: real)
    ensures var c', v' := StepCore(c, dt, width, height), Reflected(c, dt, width, height);
            && c'.velocity == v'
            && c'.transform.translation == Add(c.transform.translation, Scale(Vec3(v'.x, v'.y, 0.0), dt))
            && c'.transform.rotation == c.transform.rotation
            && c'.transform.translation.z == c.transform.translation.z
            && (v'.x != c.velocity.x && dt != 0.0 ==> c'.transform.translation.x != LookAhead(c, dt).x)
            && (v'.y != c.velocity.y && dt != 0.0 ==> c'.transform.translation.y != LookAhead(c, dt).y)
  {
    var v, v' := c.velocity, Reflected(c, dt, width, height);
    if v'.x != v.x && dt != 0.0 {
      assert v'.x == -v.x && v.x != 0.0;
      assert v'.x * dt != v.x * dt;
    }
    if v'.y != v.y && dt != 0.0 {
      assert v'.y == -v.y && v.y != 0.0;
      assert v'.y * dt != v.y * dt;
    }
  }

  /** Every edge moves by the very displacement the last core moves by, so the
      ring keeps its shape around that core; only translations in the plane
      change, never a rotation, a collider or a depth. */
  lemma RigidTranslation(s: State, dt: real, width: real, height: real)
    requires |s.cores| > 0
    ensures var s' := Advance(s, dt, width, height);
            var moved := Sub(Last(s'.cores).transform.translation, Last(s.cores).transform.translation);
            && |s'.cores| == |s.cores| && |s'.edges| == |s.edges|
            && moved.z == 0.0
            && forall i :: 0 <= i < |s.edges| ==>
                 && Sub(s'.edges[i].transform.translation, s.edges[i].transform.translation) == moved
                 && s'.edges[i].transform.rotation == s.edges[i].transform.rotation
                 && s'.edges[i].halfExtents == s.edges[i].halfExtents
  {
  }

  /** With no core the edges stay where they are. */
  lemma NoCoreNoDrift(s: State, dt: real, width: real, height: real)
    requires |s.cores| == 0
    ensures Advance(s, dt, width, height) == s
  {
    assert Advance(s, dt, width, height).edges == s.edges;
  }

  /** With a zero elapsed time, or with every core at rest, nothing moves
      (a zero elapsed time may still flip a velocity). */
  lemma ZeroMotion(s: State, dt: real, width: real, height: real)
    requires dt == 0.0 || forall k :: 0 <= k < |s.cores| ==> s.cores[k].velocity == Vec2(0.0, 0.0)
    ensures var s' := Advance(s, dt, width, height);
            && |s'.cores| == |s.cores|
            && (forall k :: 0 <= k < |s.cores| ==> s'.cores[k].transform == s.cores[k].transform)
            && s'.edges == s.edges
  {
    var s' := Advance(s, dt, width, height);
    var d := EdgeDisplacement(s.cores, dt, width, height);
    assert d == Zero3;
    forall i | 0 <= i < |s.edges| ensures s'.edges[i] == s.edges[i] {
      assert Add(s.edges[i].transform.translation, d) == s.edges[i].transform.translation;
    }
  }

  // ---------------------------------------------------------------------------
  // Many ticks

  /** Cores at rest stay at rest, and nothing ever moves. */
  lemma {:induction false} RunAtRest(s: State, frames: seq<Frame>)
    requires forall k :: 0 <= k < |s.cores| ==> s.cores[k].velocity == Vec2(0.0, 0.0)
    ensures Run(s, frames) == s
    decreases |frames|
  {
    if frames != [] {
      var f := frames[0];
      var s' := Advance(s, f.dt, f.width, f.height);
      ZeroMotion(s, f.dt, f.width, f.height);
      forall k | 0 <= k < |s.cores| ensures s'.cores[k] == s.cores[k] {
        assert Reflected(s.cores[k], f.dt, f.width, f.height) == Vec2(0.0, 0.0);
      }
      assert s' == s;
      RunAtRest(s', frames[1..]);
    }
  }

  /** Over any number of ticks every core keeps the magnitude of each velocity
      component. */
  lemma {:induction false} RunKeepsSpeeds(s: State, frames: seq<Frame>)
    ensures var s' := Run(s, frames);
            && |s'.cores| == |s.cores|
            && forall k :: 0 <= k < |s.cores| ==>
                 && Abs(s'.cores[k].velocity.x) == Abs(s.cores[k].velocity.x)
                 && Abs(s'.cores[k].velocity.y) == Abs(s.cores[k].velocity.y)
    decreases |frames|
  {
    if frames != [] {
      var f := frames[0];
      var s1 := Advance(s, f.dt, f.width, f.height);
      forall k | 0 <= k < |s.cores|
        ensures Abs(s1.cores[k].velocity.x) == Abs(s.cores[k].velocity.x)
        ensures Abs(s1.cores[k].velocity.y) == Abs(s.cores[k].velocity.y)
      {
        SignOnlyChange(s.cores[k], f.dt, f.width, f.height);
      }
      RunKeepsSpeeds(s1, frames[1..]);
    }
  }

  /** Over any number of ticks the ring never distorts: each edge keeps its
      offset from the last core, its rotation and its collider. */
  lemma {:induction false} RunKeepsRingRigid(s: State, frames: seq<Frame>)
    requires |s.cores| > 0
    ensures var s' := Run(s, frames);
            && |s'.cores| == |s.cores| && |s'.edges| == |s.edges|
            && forall i :: 0 <= i < |s.edges| ==>
                 && Sub(s'.edges[i].transform.translation, Last(s'.cores).transform.translation)
                    == Sub(s.edges[i].transform.translation, Last(s.cores).transform.translation)
                 && s'.edges[i].transform.rotation == s.edges[i].transform.rotation
                 && s'.edges[i].halfExtents == s.edges[i].halfExtents
    decreases |frames|
  {
    if frames != [] {
      var f := frames[0];
      var s1 := Advance(s, f.dt, f.width, f.height);
      RigidTranslation(s, f.dt, f.width, f.height);
      forall i | 0 <= i < |s.edges|
        ensures Sub(s1.edges[i].transform.translation, Last(s1.cores).transform.translation)
                == Sub(s.edges[i].transform.translation, Last(s.cores).transform.translation)
      {
        var d := Sub(Last(s1.cores).transform.translation, Last(s.cores).transform.translation);
        assert s1.edges[i].transform.translation == Add(s.edges[i].transform.translation, d);
      }
      RunKeepsRingRigid(s1, frames[1..]);
    }
  }

  // ---------------------------------------------------------------------------
  // The arena stays inside the window

  /** The arena disc of a core lies strictly inside the window. */
  predicate InWindow(c: Core, width: real, height: real) {
    var p := c.transform.translation;
    && p.x + Radius < width / 2.0 && p.x - Radius > -width / 2.0
    && p.y + Radius < height / 2.0 && p.y - Radius > -height / 2.0
  }

  /** One tick's step along each axis is shorter than the room the disc has to
      move in along that axis. */
  predicate SlowEnough(c: Core, dt: real, width: real, height: real) {
    && Abs(c.velocity.x * dt) < width / 2.0 - Radius
    && Abs(c.velocity.y * dt) < height / 2.0 - Radius
  }

  /** Along one axis: a coordinate strictly inside the window, stepping by
      `d`, or by `-d` when its look-ahead reaches an edge, is still inside, as
      long as the step is shorter than the room `extent / 2 - Radius` it has. */
  lemma AxisStaysInside(p: real, d: real, extent: real)
    requires p + Radius < extent / 2.0 && p - Radius > -extent / 2.0
    requires Abs(d) < extent / 2.0 - Radius
    ensures var p' := if ReachesEdge(p + d, extent) then p - d else p + d;
            p' + Radius < extent / 2.0 && p' - Radius > -extent / 2.0
  {
  }

  /** The coordinate a core reaches along one axis in a tick: its look-ahead
      when it does not reflect, the mirror step back otherwise. */
  lemma AxisStep(c: Core, dt: real, width: real, height: real)
    ensures var p, v := c.transform.translation, c.velocity;
            var p' := StepCore(c, dt, width, height).transform.translation;
            var dx, dy := v.x * dt, v.y * dt;
            && p'.x == (if ReachesEdge(p.x + dx, width) then p.x - dx else p.x + dx)
            && p'.y == (if ReachesEdge(p.y + dy, height) then p.y - dy else p.y + dy)
  {
    var p, v := c.transform.translation, c.velocity;
    var v' := Reflected(c, dt, width, height);
    assert LookAhead(c, dt) == Vec3(p.x + v.x * dt, p.y + v.y * dt, p.z + 0.0 * dt);
    assert (-v.x) * dt == -(v.x * dt) && (-v.y) * dt == -(v.y * dt);
  }

  /** Reflecting on the look-ahead position keeps an arena that starts inside
      the window inside it, provided it does not cross a whole band in one tick. */
  lemma StepKeepsArenaInWindow(c: Core, dt: real, width: real, height: real)
    requires InWindow(c, width, height) && SlowEnough(c, dt, width, height)
    ensures InWindow(StepCore(c, dt, width, height), width, height)
  {
    var p := c.transform.translation;
    AxisStep(c, dt, width, height);
    AxisStaysInside(p.x, c.velocity.x * dt, width);
    AxisStaysInside(p.y, c.velocity.y * dt, height);
  }

  /** `SignOnlyChange` applied to the step bound: since a tick only changes
      the signs of a core's velocity, it changes no core's step size for any
      later tick. */
  lemma StepKeepsSlowEnough(c: Core, f: Frame, dt: real, width: real, height: real)
    requires SlowEnough(c, dt, width, height)
    ensures SlowEnough(StepCore(c, f.dt, f.width, f.height), dt, width, height)
  {
    var v := c.velocity;
    SignOnlyChange(c, f.dt, f.width, f.height);
    assert (-v.x) * dt == -(v.x * dt) && (-v.y) * dt == -(v.y * dt);
  }

  /** In a window of fixed size, an arena that starts inside stays inside for
      any number of ticks, as long as no tick's step crosses a whole band. */
  lemma {:induction false} RunKeepsArenaInWindow(s: State, frames: seq<Frame>, width: real, height: real)
    requires forall i :: 0 <= i < |frames| ==> frames[i].width == width && frames[i].height == height
    requires forall k :: 0 <= k < |s.cores| ==> InWindow(s.cores[k], width, height)
    requires forall i, k :: 0 <= i < |frames| && 0 <= k < |s.cores| ==>
               SlowEnough(s.cores[k], frames[i].dt, width, height)
    ensures var s' := Run(s, frames);
            |s'.cores| == |s.cores| && forall k :: 0 <= k < |s'.cores| ==> InWindow(s'.cores[k], width, height)
    decreases |frames|
  {
    if frames != [] {
      var f := frames[0];
      var s1 := Advance(s, f.dt, f.width, f.height);
      var rest := frames[1..];
      forall k | 0 <= k < |s.cores| ensures InWindow(s1.cores[k], width, height) {
        StepKeepsArenaInWindow(s.cores[k], f.dt, width, height);
      }
      forall i, k | 0 <= i < |rest| && 0 <= k < |s1.cores|
        ensures SlowEnough(s1.cores[k], rest[i].dt, width, height)
      {
        assert rest[i] == frames[i + 1];
        StepKeepsSlowEnough(s.cores[k], f, rest[i].dt, width, height);
      }
      RunKeepsArenaInWindow(s1, rest, width, height);
    }
  }
}
