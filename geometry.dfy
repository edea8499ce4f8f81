/**
 * The exact part of the sphere geometry: vectors, scaling, dot products,
 * linear interpolation, the sampling of an arc and the screen-space distance
 * of a projected point. Normalising a vector and projecting it through the
 * camera are floating-point routines; they come in as functions.
 */
module Geometry {
  import opened Wrappers

  datatype Vec = Vec(x: real, y: real, z: real)

  /** `new THREE.Vector3()`. */
  const Origin := Vec(0.0, 0.0, 0.0)

  /** `v.clone().multiplyScalar(k)`. */
  function Scale(v: Vec, k: real): Vec {
    Vec(v.x * k, v.y * k, v.z * k)
  }

  function Dot(a: Vec, b: Vec): real {
    a.x * b.x + a.y * b.y + a.z * b.z
  }

  /** `lerpVectors(a, b, t)`: `a + (b - a) * t`, coordinate by coordinate. */
  function Lerp(a: Vec, b: Vec, t: real): Vec {
    Vec(a.x + (b.x - a.x) * t, a.y + (b.y - a.y) * t, a.z + (b.z - a.z) * t)
  }

  /** Number of segments of every sampled arc (`ARC_SEGMENTS`). */
  const ArcSegments: nat := 64

  /** Radial lift that keeps arcs just above the sphere surface. */
  const ArcLift: real := 1.005

  /** Sample `i` of the arc from `a` to `b`: lerp at `i / 64`, normalise, lift by 1.005. */
  function ArcPoint(normalize: Vec -> Vec, a: Vec, b: Vec, i: nat): Vec {
    Scale(normalize(Lerp(a, b, i as real / ArcSegments as real)), ArcLift)
  }

  /** The 65 samples `i = 0 .. 64` of the arc from `a` to `b`. */
  function ArcPoints(normalize: Vec -> Vec, a: Vec, b: Vec): seq<Vec> {
    seq(ArcSegments + 1, i requires 0 <= i <= ArcSegments => ArcPoint(normalize, a, b, i))
  }

  /**
   * What the hit tests need of the camera and the canvas: the projection to
   * normalised device coordinates and the canvas's bounding rectangle.
   */
  datatype Camera = Camera(project: Vec -> Vec, left: real, top: real, width: real, height: real)

  /**
   * Squared pixel distance between the projection of `p` and the client
   * point, or none when the projection lies beyond the far plane (`z > 1`).
   */
  function ScreenDist2(cam: Camera, p: Vec, clientX: real, clientY: real): Option<real> {
    var q := cam.project(p);
    if q.z > 1.0 then None
    else
      var sx := (q.x + 1.0) * 0.5 * cam.width;
      var sy := (-q.y + 1.0) * 0.5 * cam.height;
      var dx := sx - (clientX - cam.left);
      var dy := sy - (clientY - cam.top);
      Some(dx * dx + dy * dy)
  }

  /**
   * Back-face fade of a note: `max(0, min(1, dot * 6))` of the dot product
   * between its normal and the camera direction.
   */
  function Fade(dot: real): (o: real)
    ensures 0.0 <= o <= 1.0
    ensures dot <= 0.0 ==> o == 0.0
    ensures 6.0 * dot >= 1.0 ==> o == 1.0
    ensures o > 0.1 <==> 60.0 * dot > 1.0
  {
    if dot * 6.0 > 1.0 then 1.0 else if dot * 6.0 < 0.0 then 0.0 else dot * 6.0
  }
}
