/** The running arena as the engine holds it: the entities spawned at startup
    (src/main.rs, setup_physics) and the per-tick system that moves them in
    place (src/main.rs, move_big_ball). */
module Simulation {
  import opened Geometry
  import opened Arena
  import Ring
  import Drift

  /** The core marker is spawned at the origin, slightly behind the wall, with
      this drift velocity. */
  const InitialCore: Core := Core(Vec2(100.0, 125.0), Transform(Vec3(0.0, 0.0, -0.1), 0.0))

  function Initial(t: Ring.Trig): State {
    State([InitialCore], Ring.Wall(t))
  }

  /** The entities the drift system touches: every core entity and every
      boundary edge, each updated in place. */
  class World {
    const cores: array<Core>
    const edges: array<Segment>

    ghost function Snapshot(): State
      reads cores, edges
    {
      State(cores[..], edges[..])
    }

    /** Spawns the wall, face by face, and the core marker. */
    constructor Setup(t: Ring.Trig)
      ensures fresh(cores) && fresh(edges)
      ensures Snapshot() == Initial(t)
    {
      var ring := Ring.BuildRing(t);
      edges := new Segment[|ring|](k requires 0 <= k < |ring| => ring[k]);
      cores := new Core[1](_ => InitialCore);
    }

    /** One tick: every core reflects its velocity off the window edges using
        its look-ahead position and moves by the reflected velocity; then every
        edge moves by the displacement of the last core visited (zero when
        there is none). */
    method Tick(dt: real, width: real, height: real)
      modifies cores, edges
      ensures Snapshot() == Drift.Advance(old(Snapshot()), dt, width, height)
    {
      var ballSpeed := Zero3;
      for i := 0 to cores.Length
        modifies cores
        invariant forall k :: 0 <= k < i ==> cores[k] == Drift.StepCore(old(cores[k]), dt, width, height)
        invariant forall k :: i <= k < cores.Length ==> cores[k] == old(cores[k])
        invariant ballSpeed == Drift.EdgeDisplacement(old(cores[..])[..i], dt, width, height)
      {
        var ball := cores[i];
        var velocity := ball.velocity;
        ballSpeed := Scale(Extend(velocity), dt);
        var futurePos := Add(ball.transform.translation, ballSpeed);
        if futurePos.x + Radius >= width / 2.0 || futurePos.x - Radius <= -width / 2.0 {
          velocity := velocity.(x := -velocity.x);
        }
        if futurePos.y + Radius >= height / 2.0 || futurePos.y - Radius <= -height / 2.0 {
          velocity := velocity.(y := -velocity.y);
        }
        ballSpeed := Scale(Extend(velocity), dt);
        cores[i] := Core(velocity, ball.transform.(translation := Add(ball.transform.translation, ballSpeed)));
      }
      assert old(cores[..])[..cores.Length] == old(cores[..]);
      for j := 0 to edges.Length
        modifies edges
        invariant forall k :: 0 <= k < j ==> edges[k] == Drift.StepEdge(old(edges[k]), ballSpeed)
        invariant forall k :: j <= k < edges.Length ==> edges[k] == old(edges[k])
      {
        var transform := edges[j].transform;
        edges[j] := edges[j].(transform := transform.(translation := Add(transform.translation, ballSpeed)));
      }
    }
  }

  /** The first tick after startup in an 800 by 600 window with a one-second
      step: the x look-ahead (100 + 250 < 400) keeps its sign, the y look-ahead
      (125 + 250 >= 300) flips it, and the core and all 64 edges move by
      (100, -125). */
  lemma FirstTick(t: Ring.Trig)
    ensures var s := Drift.Advance(Initial(t), 1.0, 800.0, 600.0);
            && s.cores == [Core(Vec2(100.0, -125.0), Transform(Vec3(100.0, -125.0, -0.1), 0.0))]
            && |s.edges| == Ring.Faces
            && forall i :: 0 <= i < |s.edges| ==>
                 s.edges[i].transform.translation
                 == Add(Ring.RingSegment(t, i).transform.translation, Vec3(100.0, -125.0, 0.0))
  {
  }

  /** However many ticks run, with whatever elapsed times and window sizes,
      every edge stays where it was spawned relative to the core marker: the
      wall remains the polygon around the core, with its rotations and
      colliders untouched. */
  lemma WallStaysAroundCore(t: Ring.Trig, frames: seq<Drift.Frame>)
    ensures var s := Drift.Run(Initial(t), frames);
            && |s.cores| == 1 && |s.edges| == Ring.Faces
            && forall i :: 0 <= i < Ring.Faces ==>
                 && Sub(s.edges[i].transform.translation, s.cores[0].transform.translation)
                    == Sub(Ring.RingSegment(t, i).transform.translation, InitialCore.transform.translation)
                 && s.edges[i].transform.rotation == Ring.RingSegment(t, i).transform.rotation
                 && s.edges[i].halfExtents == Ring.RingSegment(t, i).halfExtents
  {
    Drift.RunKeepsRingRigid(Initial(t), frames);
  }
}
