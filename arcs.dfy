/**
 * The arc data model: a connection between two notes drawn as a tube, its
 * optional arrow heads, the rubber-band preview of an arc being drawn, and
 * the sampling of an arc into 65 points.
 */
module Arcs {
  import opened Wrappers
  import opened Geometry
  import opened Pins

  /**
   * An arrow head: a cone mesh over the shared cone geometry, the material
   * allocated for it, and the position it was last placed at.
   */
  datatype Arrow = Arrow(mesh: Ref, mat: Ref, at: Vec)

  /**
   * An `ArcConnection` from note `from` to note `to`: the tube mesh and its
   * material, the tube geometry currently attached to the mesh (`geo`,
   * built over the sample points `path`), and the arrow heads at the target
   * and at the source end.
   */
  datatype ArcRec = ArcRec(
    from: Ref, to: Ref, mesh: Ref, mat: Ref, geo: Ref, path: seq<Vec>,
    arrowTo: Option<Arrow>, arrowFrom: Option<Arrow>)
  {
    /** The arc has `n` at one of its ends (`arc.from === n || arc.to === n`). */
    predicate Touches(n: Ref) {
      from == n || to == n
    }
  }

  /** The cone meshes of the arrow heads an arc has. */
  function ArrowMeshes(a: ArcRec): set<Ref> {
    (if a.arrowTo.Some? then {a.arrowTo.value.mesh} else {}) + (if a.arrowFrom.Some? then {a.arrowFrom.value.mesh} else {})
  }

  /** The materials of the arrow heads an arc has. */
  function ArrowMats(a: ArcRec): set<Ref> {
    (if a.arrowTo.Some? then {a.arrowTo.value.mat} else {}) + (if a.arrowFrom.Some? then {a.arrowFrom.value.mat} else {})
  }

  /** The arrow heads of the arc are objects below `next`. */
  predicate ArrowsUnder(a: ArcRec, next: nat) {
    forall o | o in ArrowMeshes(a) + ArrowMats(a) :: o < next
  }

  /**
   * An arc record with both arrows gone: what `setArcArrows(scene, arc,
   * false, false)` leaves of it.
   */
  function Bare(a: ArcRec): ArcRec {
    a.(arrowTo := None, arrowFrom := None)
  }

  /**
   * One end of `setArcArrows`: an arrow wanted and missing is made of a new
   * material (`next`) and a new cone mesh (`next + 1`); an arrow wanted and
   * present is kept; an unwanted one is dropped. The second component is the
   * allocation counter afterwards.
   */
  function Toggle(cur: Option<Arrow>, show: bool, next: nat): (r: (Option<Arrow>, nat))
    ensures r.0.Some? == show && next <= r.1
    ensures show && cur.Some? ==> r == (cur, next)
    ensures show && cur.None? ==> r.0.value.mat == next && r.0.value.mesh == next + 1 && r.1 == next + 2
    ensures !show ==> r.1 == next
  {
    if !show then (None, next)
    else if cur.Some? then (cur, next)
    else (Some(Arrow(next + 1, next, Origin)), next + 2)
  }

  /**
   * The arrow heads `setArcArrows(scene, arc, showTo, showFrom)` leaves on
   * the arc, before they are placed, with the allocation counter afterwards:
   * the arc has an arrow at an end exactly when one is asked for there, an
   * arrow still wanted is the one it had, every arrow it gains is made of new
   * objects, and nothing but the arrows changes.
   */
  function SetArrows(a: ArcRec, showTo: bool, showFrom: bool, next: nat): (r: (ArcRec, nat))
    ensures r.0 == a.(arrowTo := r.0.arrowTo, arrowFrom := r.0.arrowFrom)
    ensures r.0.arrowTo.Some? == showTo && r.0.arrowFrom.Some? == showFrom
    ensures showTo && a.arrowTo.Some? ==> r.0.arrowTo == a.arrowTo
    ensures showFrom && a.arrowFrom.Some? ==> r.0.arrowFrom == a.arrowFrom
    ensures next <= r.1
    ensures ArrowsUnder(a, next) ==> ArrowsUnder(r.0, r.1)
    ensures ArrowsUnder(a, next) ==>
      forall o | o in (ArrowMeshes(r.0) - ArrowMeshes(a)) + (ArrowMats(r.0) - ArrowMats(a)) :: next <= o
    ensures !showTo && !showFrom ==> r == (Bare(a), next)
  {
    var t := Toggle(a.arrowTo, showTo, next);
    var f := Toggle(a.arrowFrom, showFrom, t.1);
    var r := a.(arrowTo := t.0, arrowFrom := f.0);
    assert ArrowsUnder(a, next) ==> ArrowsUnder(r, f.1) by {
      if ArrowsUnder(a, next) {
        forall o | o in ArrowMeshes(r) + ArrowMats(r) ensures o < f.1 {
          assert o in ArrowMeshes(a) + ArrowMats(a) || next <= o < f.1;
        }
      }
    }
    (r, f.1)
  }

  /**
   * Every present arrow head sits at its end's normal lifted by 1.005, given
   * the normals of the two ends (`repositionArcArrows`; the orientation along
   * the tangent is not modelled).
   */
  predicate ArrowsPlaced(a: ArcRec, fromNormal: Vec, toNormal: Vec) {
    && (a.arrowTo.Some? ==> a.arrowTo.value.at == Scale(toNormal, ArcLift))
    && (a.arrowFrom.Some? ==> a.arrowFrom.value.at == Scale(fromNormal, ArcLift))
  }

  /** `repositionArcArrows(arc)` on an arc whose ends have the given normals. */
  function Reposition(a: ArcRec, fromNormal: Vec, toNormal: Vec): (r: ArcRec)
    ensures ArrowsPlaced(r, fromNormal, toNormal)
    ensures r.arrowTo.Some? == a.arrowTo.Some? && r.arrowFrom.Some? == a.arrowFrom.Some?
    ensures a.arrowTo.Some? ==> r.arrowTo.value.mesh == a.arrowTo.value.mesh && r.arrowTo.value.mat == a.arrowTo.value.mat
    ensures a.arrowFrom.Some? ==> r.arrowFrom.value.mesh == a.arrowFrom.value.mesh && r.arrowFrom.value.mat == a.arrowFrom.value.mat
    ensures r.from == a.from && r.to == a.to && r.mesh == a.mesh && r.mat == a.mat && r.geo == a.geo && r.path == a.path
    ensures ArrowMeshes(r) == ArrowMeshes(a) && ArrowMats(r) == ArrowMats(a)
  {
    a.(arrowTo := if a.arrowTo.Some? then Some(a.arrowTo.value.(at := Scale(toNormal, ArcLift))) else None,
       arrowFrom := if a.arrowFrom.Some? then Some(a.arrowFrom.value.(at := Scale(fromNormal, ArcLift))) else None)
  }

  /** `arcs` without the arcs that touch note `n`, in their order (the arcs' ends are read in `ad`). */
  function ArcsWithout(cs: seq<Ref>, ad: map<Ref, ArcRec>, n: Ref): (r: seq<Ref>)
    requires forall a | a in cs :: a in ad
    ensures forall a | a in r :: a in cs && !ad[a].Touches(n)
    ensures forall a | a in cs && !ad[a].Touches(n) :: a in r
    ensures |r| <= |cs|
  {
    if cs == [] then []
    else (if ad[cs[0]].Touches(n) then [] else [cs[0]]) + ArcsWithout(cs[1..], ad, n)
  }

  /** The scene objects of the arcs of `cs` that touch `n`: their tubes and their arrow heads. */
  function TouchingMeshes(cs: seq<Ref>, ad: map<Ref, ArcRec>, n: Ref): set<Ref>
    requires forall a | a in cs :: a in ad
  {
    if cs == [] then {}
    else (if ad[cs[0]].Touches(n) then {ad[cs[0]].mesh} + ArrowMeshes(ad[cs[0]]) else {}) + TouchingMeshes(cs[1..], ad, n)
  }

  /** The resources of the arcs of `cs` that touch `n`: tube geometries and materials, arrow materials. */
  function TouchingResources(cs: seq<Ref>, ad: map<Ref, ArcRec>, n: Ref): set<Ref>
    requires forall a | a in cs :: a in ad
  {
    if cs == [] then {}
    else (if ad[cs[0]].Touches(n) then {ad[cs[0]].geo, ad[cs[0]].mat} + ArrowMats(ad[cs[0]]) else {}) + TouchingResources(cs[1..], ad, n)
  }

  /** `ad` with the arcs of `cs` that touch `n` stripped of their arrows. */
  function Stripped(ad: map<Ref, ArcRec>, cs: seq<Ref>, n: Ref): (r: map<Ref, ArcRec>)
    ensures r.Keys == ad.Keys
  {
    map a | a in ad :: if a in cs && ad[a].Touches(n) then Bare(ad[a]) else ad[a]
  }

  /**
   * The in-progress `DrawingArc`: its source note, the preview line object,
   * the line's material (with its opacity) and its buffer geometry, whose
   * position attribute is the buffer `buf` of 65 points.
   */
  datatype Drawing = Drawing(source: Ref, line: Ref, lineMat: Ref, lineGeo: Ref, buf: array<Vec>, opacity: real)

  /** The preview is being drawn from note `n`. */
  predicate DrawsFrom(d: Option<Drawing>, n: Ref) {
    d.Some? && d.value.source == n
  }

  /** Opacity of the preview while it follows the bare sphere, and while it snaps to a note. */
  const LooseOpacity: real := 0.4
  const SnappedOpacity: real := 1.0

  /** `makeArcGeo()`: a zero-filled position buffer of 65 points. */
  method MakeArcGeo() returns (buf: array<Vec>)
    ensures fresh(buf) && buf.Length == ArcSegments + 1
    ensures forall i :: 0 <= i < buf.Length ==> buf[i] == Origin
  {
    buf := new Vec[ArcSegments + 1](_ => Origin);
  }

  /** `updateArc(geo, a, b)`: writes the 65 samples of the arc from `a` to `b` into the buffer, in place. */
  method UpdateArc(buf: array<Vec>, normalize: Vec -> Vec, a: Vec, b: Vec)
    requires buf.Length == ArcSegments + 1
    modifies buf
    ensures buf[..] == ArcPoints(normalize, a, b)
  {
    for i := 0 to ArcSegments + 1
      invariant forall j :: 0 <= j < i ==> buf[j] == ArcPoint(normalize, a, b, j)
    {
      buf[i] := ArcPoint(normalize, a, b, i);
    }
  }

  /** `makeArcGeo()` followed by `updateArc(geo, a, b)`: a new buffer holding the 65 samples of the arc from `a` to `b`. */
  method NewArcLine(normalize: Vec -> Vec, a: Vec, b: Vec) returns (buf: array<Vec>)
    ensures fresh(buf) && buf.Length == ArcSegments + 1
    ensures buf[..] == ArcPoints(normalize, a, b)
  {
    buf := MakeArcGeo();
    UpdateArc(buf, normalize, a, b);
  }

  /**
   * `makeArcTube(a, b)`: the 65 control points pushed one by one; the
   * Catmull-Rom curve and the tube swept along them are not modelled, so the
   * points stand for the geometry.
   */
  method MakeArcTube(normalize: Vec -> Vec, a: Vec, b: Vec) returns (points: seq<Vec>)
    ensures points == ArcPoints(normalize, a, b)
  {
    points := [];
    for i := 0 to ArcSegments + 1
      invariant |points| == i
      invariant forall j :: 0 <= j < i ==> points[j] == ArcPoint(normalize, a, b, j)
    {
      points := points + [ArcPoint(normalize, a, b, i)];
    }
  }

  /** The arc from `a` to `b` starts at `a` and ends at `b`, both normalised and lifted. */
  lemma ArcEnds(normalize: Vec -> Vec, a: Vec, b: Vec)
    ensures |ArcPoints(normalize, a, b)| == ArcSegments + 1
    ensures ArcPoints(normalize, a, b)[0] == Scale(normalize(a), ArcLift)
    ensures ArcPoints(normalize, a, b)[ArcSegments] == Scale(normalize(b), ArcLift)
  {
    assert Lerp(a, b, 0.0) == a;
    assert Lerp(a, b, 1.0) == b;
  }

}
