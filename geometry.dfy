/** Vectors and transforms over the reals.
    The game engine stores these as 32-bit floats; here every coordinate is an
    exact `real`, and single-precision rounding is not modelled. */
module Geometry {

  datatype Vec2 = Vec2(x: real, y: real)

  datatype Vec3 = Vec3(x: real, y: real, z: real)

  const Zero3: Vec3 := Vec3(0.0, 0.0, 0.0)

  /** The planar vector lifted into 3-D with a zero z component. */
  function Extend(v: Vec2): Vec3 {
    Vec3(v.x, v.y, 0.0)
  }

  function Add(a: Vec3, b: Vec3): Vec3 {
    Vec3(a.x + b.x, a.y + b.y, a.z + b.z)
  }

  function Sub(a: Vec3, b: Vec3): Vec3 {
    Vec3(a.x - b.x, a.y - b.y, a.z - b.z)
  }

  function Scale(v: Vec3, k: real): Vec3 {
    Vec3(v.x * k, v.y * k, v.z * k)
  }

  function Abs(r: real): real {
    if r < 0.0 then -r else r
  }

  /** A placement in the plane: a translation and a rotation about the z axis,
      the rotation written as an angle in radians. */
  datatype Transform = Transform(translation: Vec3, rotation: real)

  /** The transform turned by a further `angle` about the z axis. */
  function RotateZ(t: Transform, angle: real): Transform {
    t.(rotation := t.rotation + angle)
  }

  /** The transform moved by `d`, its rotation untouched. */
  function Shift(t: Transform, d: Vec3): Transform {
    t.(translation := Add(t.translation, d))
  }
}

/** The entities of the arena: its drifting core and its boundary edges. */
module Arena {
  import opened Geometry

  /** Radius of the arena disc, in world units. */
  const Radius: real := 250.0

  /** The arena's core marker: its drift velocity and its transform. */
  datatype Core = Core(velocity: Vec2, transform: Transform)

  /** One fixed boundary edge: its transform and the half-extents of its
      rectangular collider. */
  datatype Segment = Segment(transform: Transform, halfExtents: Vec2)

  /** All state the per-tick controller reads or writes: every core entity and
      every boundary edge. */
  datatype State = State(cores: seq<Core>, edges: seq<Segment>)
}
