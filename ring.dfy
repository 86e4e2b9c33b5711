/** Construction of the arena wall: a regular polygon of `Faces` fixed
    segments placed around the arena centre (src/main.rs, setup_physics).
    The trigonometric functions and the constant pi are parameters, carried in
    a `Trig` record; nothing here depends on what they compute except where a
    lemma says so in its requires. */
module Ring {
  import opened Geometry
  import opened Arena

  /** Number of faces of the polygon. */
  const Faces: nat := 64

  /** Thickness of every segment's collider. */
  const CuboidHeight: real := 1.0

  datatype Trig = Trig(sin: real -> real, cos: real -> real, pi: real)

  /** Perimeter of the polygon inscribed in the circle of radius `Radius`. */
  function Perimeter(t: Trig): real {
    2.0 * Faces as real * Radius * t.sin(t.pi / Faces as real)
  }

  function FaceLength(t: Trig): real {
    Perimeter(t) / Faces as real
  }

  /** The apothem: distance from the centre to the middle of each face. */
  function MinorRadius(t: Trig): real {
    t.cos(t.pi / Faces as real) * Radius
  }

  function Angle(t: Trig, i: nat): real {
    (i as real) * (2.0 * t.pi / Faces as real)
  }

  /** The segment spawned for face `i`. */
  function RingSegment(t: Trig, i: nat): Segment {
    var angle := Angle(t, i);
    var centre := Vec3(MinorRadius(t) * t.cos(angle), MinorRadius(t) * t.sin(angle), 0.0);
    Segment(RotateZ(Transform(centre, 0.0), angle + t.pi / 2.0),
            Vec2(FaceLength(t) / 2.0, CuboidHeight / 2.0))
  }

  /** The whole wall, face by face. */
  function Wall(t: Trig): seq<Segment> {
    seq(Faces, i requires 0 <= i < Faces => RingSegment(t, i))
  }

  /** Spawns the segments of the wall one face at a time, in face order. */
  method BuildRing(t: Trig) returns (ring: seq<Segment>)
    ensures |ring| == Faces
    ensures forall i :: 0 <= i < |ring| ==> ring[i] == RingSegment(t, i)
    ensures forall i, j :: 0 <= i < |ring| && 0 <= j < |ring| ==> ring[i].halfExtents == ring[j].halfExtents
    ensures ring == Wall(t)
  {
    var radius := Radius;
    var faces := Faces;
    var perimeter := 2.0 * faces as real * radius * t.sin(t.pi / faces as real);
    var cuboidHeight := CuboidHeight;
    var faceLength := perimeter / faces as real;
    var minorRadius := t.cos(t.pi / faces as real) * radius;
    ring := [];
    for i := 0 to faces
      invariant |ring| == i
      invariant forall k :: 0 <= k < i ==> ring[k] == RingSegment(t, k)
    {
      var angle := (i as real) * (2.0 * t.pi / faces as real);
      var x := minorRadius * t.cos(angle);
      var y := minorRadius * t.sin(angle);
      var position := Transform(Vec3(x, y, 0.0), 0.0);
      position := RotateZ(position, angle + t.pi / 2.0);
      assert angle == Angle(t, i);
      assert minorRadius == MinorRadius(t);
      assert faceLength == FaceLength(t);
      assert Segment(position, Vec2(faceLength / 2.0, cuboidHeight / 2.0)) == RingSegment(t, i);
      ring := ring + [Segment(position, Vec2(faceLength / 2.0, cuboidHeight / 2.0))];
    }
  }

  /** Every segment has the same collider: the faces together make up the
      polygon's perimeter, and each is `CuboidHeight` thick. */
  lemma SegmentsShareShape(t: Trig, i: nat)
    requires i < Faces
    ensures RingSegment(t, i).halfExtents == RingSegment(t, 0).halfExtents
    ensures Faces as real * (2.0 * RingSegment(t, i).halfExtents.x) == Perimeter(t)
    ensures 2.0 * RingSegment(t, i).halfExtents.y == CuboidHeight
  {
  }

  /** The faces are evenly spaced around the full turn, starting at angle 0,
      and each is turned a quarter turn from its own angle, i.e. tangent to the
      circle. */
  lemma AnglesEvenlySpaced(t: Trig, i: nat)
    requires 0.0 < t.pi && i < Faces
    ensures Angle(t, 0) == 0.0
    ensures 0.0 <= Angle(t, i) < 2.0 * t.pi
    ensures i + 1 < Faces ==> Angle(t, i + 1) - Angle(t, i) == 2.0 * t.pi / Faces as real
    ensures RingSegment(t, i).transform.rotation - Angle(t, i) == t.pi / 2.0
  {
    var step, n := 2.0 * t.pi / Faces as real, i as real;
    assert Angle(t, i) == n * step;
    assert 64.0 * step == 2.0 * t.pi;
    assert 0.0 <= n * step by { assert 0.0 <= n && 0.0 < step; }
    assert n * step < 64.0 * step by { assert 0.0 < (64.0 - n) * step; }
    assert (n + 1.0) * step - n * step == step;
  }

  /** When sin and cos satisfy the Pythagorean identity, every segment centre
      lies on the circle of radius `MinorRadius(t)`, in the plane z = 0. */
  lemma CentresOnApothemCircle(t: Trig, i: nat)
    requires forall a :: t.sin(a) * t.sin(a) + t.cos(a) * t.cos(a) == 1.0
    ensures var c := RingSegment(t, i).transform.translation;
            c.x * c.x + c.y * c.y == MinorRadius(t) * MinorRadius(t) && c.z == 0.0
  {
    var m, a := MinorRadius(t), Angle(t, i);
    var s, c := t.sin(a), t.cos(a);
    assert s * s + c * c == 1.0;
    calc {
      (m * c) * (m * c) + (m * s) * (m * s);
      m * m * (c * c + s * s);
      m * m;
    }
  }
}
