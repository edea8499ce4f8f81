/**
 * The annotation session: the state of the note manager and of the arc
 * manager, which call into each other, held by one object together with the
 * shared scene and the orbit controls' rotate flag.
 */
module Annotations {
  import opened Wrappers
  import opened Seqs
  import opened JsMap
  import opened Text
  import opened Geometry
  import opened Picking
  import opened Pins
  import opened Arcs
  import opened Registry
  import opened Invariants
  import opened Rebuilds

  datatype PointerType = Mouse | Pen | Touch

  /** The fields of a `PointerEvent` the handlers read. */
  datatype PointerEvent = PointerEvent(pointerType: PointerType, button: int, clientX: real, clientY: real)

  /** A mouse press with any button but the primary one; pen and touch presses are never ignored. */
  predicate IgnoredPress(e: PointerEvent) {
    e.button != 0 && e.pointerType == Mouse
  }

  /** Radius in pixels of the touch pin picker used to start an arc. */
  const TouchRadius: real := 30.0

  /** `THRESHOLD_SQ` of the arc hit test: 8 px, squared. */
  const ArcHitThreshold: real := 64.0

  /**
   * The arc cleanup `deleteNote` delegates to: the default no-op, or
   * `deleteArcsForNote` once the arc manager is wired in.
   */
  datatype Cascade = NoCascade | ArcCascade

  /** `hitPin(raycaster) || hitNoteDiv(x, y)`: the first of two lookups that finds a note. */
  function OrElse(a: Option<Ref>, b: Option<Ref>): (r: Option<Ref>)
    ensures a.Some? ==> r == a
    ensures a.None? ==> r == b
  {
    if a.Some? then a else b
  }

  /**
   * What the arc cleanup handed to `deleteNote` does for note `n`, from the
   * arcs `cs` (read in `ad`), the preview `d`, the scene `sc`, the live
   * resources `lv` and the flag `es` to the primed values: the no-op changes
   * nothing; the arc cascade deletes the arcs touching `n`, keeping the
   * others in order, and cancels a preview drawn from `n`.
   */
  ghost predicate ArcCleanup(c: Cascade, n: Ref,
                             cs: seq<Ref>, ad: map<Ref, ArcRec>, d: Option<Drawing>, sc: set<Ref>, lv: set<Ref>, es: bool,
                             cs': seq<Ref>, ad': map<Ref, ArcRec>, d': Option<Drawing>, sc': set<Ref>, lv': set<Ref>, es': bool)
    requires forall a | a in cs :: a in ad
  {
    if c == NoCascade then
      cs' == cs && ad' == ad && d' == d && sc' == sc && lv' == lv && es' == es
    else
      && cs' == ArcsWithout(cs, ad, n) && ad' == Stripped(ad, cs, n)
      && sc' == sc - TouchingMeshes(cs, ad, n) - (if DrawsFrom(d, n) then {d.value.line} else {})
      && lv' == lv - TouchingResources(cs, ad, n) - (if DrawsFrom(d, n) then {d.value.lineGeo, d.value.lineMat} else {})
      && d' == (if DrawsFrom(d, n) then None else d)
      && es' == (if DrawsFrom(d, n) then false else es)
  }

  /**
   * After the arc cascade no arc and no preview refers to the deleted note,
   * and if every arc and the preview were on registered notes before, they
   * are on the remaining ones after.
   */
  lemma CleanupCloses(n: Ref, ns: seq<Ref>,
                      cs: seq<Ref>, ad: map<Ref, ArcRec>, d: Option<Drawing>, sc: set<Ref>, lv: set<Ref>, es: bool,
                      cs': seq<Ref>, ad': map<Ref, ArcRec>, d': Option<Drawing>, sc': set<Ref>, lv': set<Ref>, es': bool)
    requires forall a | a in cs :: a in ad
    requires ArcCleanup(ArcCascade, n, cs, ad, d, sc, lv, es, cs', ad', d', sc', lv', es')
    ensures forall a | a in cs' :: a in ad' && !ad'[a].Touches(n)
    ensures !DrawsFrom(d', n)
    ensures ClosedInv(ns, cs, ad, d) ==> ClosedInv(Without(ns, n), cs', ad', d')
  {
    if ClosedInv(ns, cs, ad, d) {
      CascadeCloses(ns, cs, ad, d, n);
    }
  }

  /**
   * A note whose edit is committed: the label's text less one trailing line
   * feed becomes both the note's text and the label's content.
   */
  function Committed(r: NoteRec): NoteRec {
    var t := StripTrailingNewline(r.shown);
    r.(text := t, shown := t)
  }

  /**
   * A note after the back-face fade for the camera direction `cam`: its pin
   * and pole materials and its label take the fade of the dot product of its
   * normal with `cam`, and the label takes pointer events when that fade is
   * above 0.1; nothing else about the note changes.
   */
  function Shaded(r: NoteRec, cam: Vec): (s: NoteRec)
    ensures s == r.(opacity := s.opacity, interactive := s.interactive)
    ensures 0.0 <= s.opacity <= 1.0
    ensures Dot(r.normal, cam) <= 0.0 ==> s.opacity == 0.0
    ensures s.interactive <==> 60.0 * Dot(r.normal, cam) > 1.0
  {
    var o := Fade(Dot(r.normal, cam));
    r.(opacity := o, interactive := o > 0.1)
  }

  /** The loop of `updateNoteVisibility` over the notes `ns`, on the records `nd`. */
  method ShadeNotes(ns: seq<Ref>, nd: map<Ref, NoteRec>, cam: Vec) returns (nd': map<Ref, NoteRec>)
    requires Known(ns, nd)
    ensures nd'.Keys == nd.Keys
    ensures forall n | n in nd :: nd'[n] == if n in ns then Shaded(nd[n], cam) else nd[n]
  {
    nd' := nd;
    for i := 0 to |ns|
      invariant nd'.Keys == nd.Keys
      invariant forall n | n in nd :: nd'[n] == if n in ns[..i] then Shaded(nd[n], cam) else nd[n]
    {
      var n := ns[i];
      nd' := nd'[n := Shaded(nd'[n], cam)];
      assert ns[..i + 1] == ns[..i] + [n];
    }
    assert ns[..|ns|] == ns;
  }

  /**
   * The squared screen distance of the pin head of each entry of
   * `pinToNote`, in iteration order, or none when it is beyond the far plane.
   */
  function PinDists(pins: seq<(Ref, Ref)>, nd: map<Ref, NoteRec>, cam: Camera, x: real, y: real): (ds: seq<Option<real>>)
    requires forall i :: 0 <= i < |pins| ==> pins[i].1 in nd
    ensures |ds| == |pins|
  {
    seq(|pins|, i requires 0 <= i < |pins| => ScreenDist2(cam, nd[pins[i].1].at.head, x, y))
  }

  /**
   * The note `hitPinAtScreen` settles on: of the entries of `pins` whose pin
   * is not beyond the far plane, the one nearest to the point on screen and
   * strictly within `radius`, the first of equally near ones; none when no
   * pin is that near.
   */
  function PickAtScreen(pins: seq<(Ref, Ref)>, nd: map<Ref, NoteRec>, cam: Camera, x: real, y: real, radius: real): (r: Option<Ref>)
    requires forall i :: 0 <= i < |pins| ==> pins[i].1 in nd
    ensures var ds := PinDists(pins, nd, cam, x, y);
      && (r.None? <==> NoneWithin(ds, radius * radius))
      && (r.Some? ==> exists k :: FirstNearest(ds, radius * radius, k) && r.value == pins[k].1)
  {
    var k := Nearest(PinDists(pins, nd, cam, x, y), radius * radius);
    if k == -1 then None else Some(pins[k].1)
  }

  /** Sample `i` of the arc between normals `a` and `b` projects strictly within 8 px of the client point. */
  predicate SampleNear(normalize: Vec -> Vec, cam: Camera, a: Vec, b: Vec, x: real, y: real, i: nat) {
    Within(ScreenDist2(cam, ArcPoint(normalize, a, b, i), x, y), ArcHitThreshold)
  }

  /** Some sample `i = 0 .. 64` of the arc between normals `a` and `b` projects within 8 px. */
  ghost predicate NearArc(normalize: Vec -> Vec, cam: Camera, a: Vec, b: Vec, x: real, y: real) {
    exists i :: 0 <= i <= ArcSegments && SampleNear(normalize, cam, a, b, x, y, i)
  }

  class Session {
    /** Vector normalisation, a floating-point routine. */
    const normalize: Vec -> Vec

    /** The allocation counter: every identity in use is below it. */
    var next: nat

    /** Every note object created so far, registered or not, by identity. */
    var noteData: map<Ref, NoteRec>
    /** `notes`. */
    var notes: seq<Ref>
    /** `pinToNote`, a Map in insertion order. */
    var pinToNote: seq<(Ref, Ref)>
    /** `draggingNote` and `editingNote`. */
    var dragging: Option<Ref>
    var editing: Option<Ref>
    /** `_onDeleteArc`, the callback `exitEditMode` hands to `deleteNote`. */
    var onDeleteArc: Cascade
    /** The notes the arc cleanup callback has been called with, in call order. */
    ghost var cascadeLog: seq<Ref>
    /** The values handed to the `setEdgeSpin` callback of the main loop, in call order. */
    ghost var spinLog: seq<bool>

    /** Every arc object created so far, registered or not, by identity. */
    var arcData: map<Ref, ArcRec>
    /** `arcConnections`. */
    var arcs: seq<Ref>
    /** `drawingArc`. */
    var drawing: Option<Drawing>
    var edgeSpin: bool
    var lastArcTarget: Vec

    /** `controls.enableRotate`. */
    var enableRotate: bool
    /** The children of the scene. */
    var scene: set<Ref>
    /** The materials and geometries that have been allocated and not yet disposed. */
    var live: set<Ref>

    // ------------------------------------------------------------------
    // Invariants
    // ------------------------------------------------------------------

    ghost predicate NotesValid()
      reads this`notes, this`noteData, this`pinToNote, this`dragging, this`editing
    {
      NotesInv(notes, noteData, pinToNote, dragging, editing)
    }

    ghost predicate ArcsValid()
      reads this`arcs, this`arcData, this`noteData, this`drawing
    {
      ArcsInv(arcs, arcData, noteData, drawing)
    }

    ghost predicate Fresh()
      reads this`next, this`scene, this`live, this`noteData, this`arcData
    {
      Below(next, scene, live, noteData, arcData)
    }

    /**
     * The registries agree, every registered note sits where its normal
     * says, every registered arc joins two different notes, the drag and edit
     * singletons refer to registered notes, and every identity in use is
     * below the allocation counter.
     */
    ghost predicate Valid()
      reads this`next, this`scene, this`live, this`noteData, this`arcData, this`notes, this`pinToNote
      reads this`dragging, this`editing, this`arcs, this`drawing
    {
      Fresh() && NotesValid() && ArcsValid()
    }

    /**
     * Every arc and the preview start and end at registered notes. This holds
     * as long as note deletion cascades to the arcs; with the default no-op
     * callback it does not.
     */
    ghost predicate Closed()
      reads this`notes, this`arcs, this`arcData, this`drawing
    {
      ClosedInv(notes, arcs, arcData, drawing)
    }

    // ------------------------------------------------------------------
    // Construction
    // ------------------------------------------------------------------

    /**
     * The module state when both managers are loaded: nothing registered,
     * rotation on, and a scene holding only the objects `scene0` (the sphere
     * and the lights), all of them below `next0`.
     */
    constructor (normalize: Vec -> Vec, scene0: set<Ref>, next0: nat)
      requires forall o | o in scene0 :: o < next0
      ensures this.normalize == normalize && scene == scene0 && next == next0
      ensures noteData == map[] && notes == [] && pinToNote == [] && dragging.None? && editing.None?
      ensures onDeleteArc == NoCascade && cascadeLog == [] && spinLog == []
      ensures arcData == map[] && arcs == [] && drawing.None? && !edgeSpin && lastArcTarget == Origin
      ensures enableRotate && live == {}
      ensures Valid() && Closed()
    {
      this.normalize := normalize;
      next := next0;
      noteData, notes, pinToNote, dragging, editing := map[], [], [], None, None;
      onDeleteArc, cascadeLog, spinLog := NoCascade, [], [];
      arcData, arcs, drawing, edgeSpin, lastArcTarget := map[], [], None, false, Origin;
      enableRotate, scene, live := true, scene0, {};
    }

    /** `setDeleteArcCallback(fn)`: wires the arc cleanup `exitEditMode` uses. */
    method SetDeleteArcCallback(c: Cascade)
      modifies this`onDeleteArc
      ensures onDeleteArc == c
    {
      onDeleteArc := c;
    }

    // ------------------------------------------------------------------
    // Note creation
    // ------------------------------------------------------------------

    /**
     * `createNoteMeshes(scene, position, text)`: a new note at the normalised
     * position holding `text`, with its own pin material and pole material,
     * whose pin, pole and label (and nothing else) join the scene. The pin and
     * pole geometries are shared and not allocated per note.
     */
    method CreateNoteMeshes(position: Vec, text: string) returns (note: Ref)
      requires Fresh()
      modifies this`next, this`scene, this`live, this`noteData
      ensures note !in old(noteData) && note in noteData && noteData == old(noteData)[note := noteData[note]]
      ensures var r := noteData[note];
        && r.normal == normalize(position) && r.text == text && r.shown == text
        && r.Separate() && r.opacity == 1.0 && r.interactive
        && old(next) <= note < next && old(next) <= r.pin < next && old(next) <= r.pole < next && old(next) <= r.overlay < next
        && old(next) <= r.pinMat < next && old(next) <= r.poleMat < next
        && scene == old(scene) + {r.pin, r.pole, r.overlay}
        && live == old(live) + {r.pinMat, r.poleMat}
    {
      var normal := normalize(position);
      var pinMat, pin, poleMat, pole, overlay := next, next + 1, next + 2, next + 3, next + 4;
      note := next + 5;
      var r := NoteRec(normal, text, text, pin, pinMat, pole, poleMat, overlay, Placement(Origin, Origin, Origin), 1.0, true);
      next, scene, noteData, live := next + 6, scene + {pin, pole, overlay}, noteData[note := r], live + {pinMat, poleMat};
    }

    /**
     * `applyNoteTransform(note)`: the pin head, the pole and the label move to
     * the places the note's normal gives them; the pin and pole orientations
     * are not modelled.
     */
    method ApplyNoteTransform(note: Ref)
      requires note in noteData
      modifies this`noteData
      ensures noteData == old(noteData)[note := old(noteData)[note].(at := PlacementOf(old(noteData)[note].normal))]
      ensures noteData[note].Placed()
    {
      var r := noteData[note];
      noteData := noteData[note := r.(at := Placement(r.normal, Scale(r.normal, PoleLift), Scale(r.normal, LabelLift)))];
    }

    /**
     * `addNote(scene, controls, text, position)`: the new note is registered
     * under its pin, placed at its normal and appended to `notes`; nothing
     * else is registered or unregistered.
     */
    method AddNote(text: string, position: Vec) returns (note: Ref)
      requires Valid()
      modifies this`next, this`scene, this`live, this`noteData, this`pinToNote, this`notes
      ensures Valid()
      ensures note !in old(noteData) && note in noteData && noteData == old(noteData)[note := noteData[note]]
      ensures var r := noteData[note];
        && r.normal == normalize(position) && r.text == text && r.shown == text && r.Placed()
        && scene == old(scene) + {r.pin, r.pole, r.overlay}
        && live == old(live) + {r.pinMat, r.poleMat}
        && pinToNote == old(pinToNote) + [(r.pin, note)]
      ensures notes == old(notes) + [note]
      ensures old(Closed()) ==> Closed()
    {
      ghost var ns0, nd0, pins0, next0, sc0, lv0 := notes, noteData, pinToNote, next, scene, live;
      note := CreateNoteMeshes(position, text);
      ApplyNoteTransform(note);
      pinToNote, notes := Set(pinToNote, noteData[note].pin, note), notes + [note];
      AddNoteKeeps(ns0, nd0, pins0, dragging, editing, arcs, arcData, drawing, next0, sc0, lv0, note, noteData[note],
                   notes, noteData, pinToNote, next, scene, live);
    }

    // ------------------------------------------------------------------
    // Arc arrows and arc deletion
    // ------------------------------------------------------------------

    /**
     * `setArcArrows(scene, arc, showTo, showFrom)`: afterwards the arc has an
     * arrow at an end exactly when it was asked for; an arrow already there
     * and still wanted is kept, a missing one is allocated (a new cone mesh
     * and material) and added to the scene, an unwanted one leaves the scene
     * and its material is disposed. The arrows are then placed at their ends.
     */
    method SetArcArrows(arc: Ref, showTo: bool, showFrom: bool)
      requires ArcsValid() && Fresh() && arc in arcData
      modifies this`next, this`scene, this`live, this`arcData
      ensures ArcsValid() && Fresh()
      ensures arc in arcData && arcData == old(arcData)[arc := arcData[arc]]
      ensures var a0 := old(arcData)[arc]; var w := SetArrows(a0, showTo, showFrom, old(next));
        && arcData[arc] == Reposition(w.0, noteData[a0.from].normal, noteData[a0.to].normal) && next == w.1
        && scene == old(scene) - (ArrowMeshes(a0) - ArrowMeshes(w.0)) + (ArrowMeshes(w.0) - ArrowMeshes(a0))
        && live == old(live) - (ArrowMats(a0) - ArrowMats(w.0)) + (ArrowMats(w.0) - ArrowMats(a0))
      ensures old(Closed()) ==> Closed()
    {
      var a := arcData[arc];
      var w := SetArrows(a, showTo, showFrom, next);
      var r := Reposition(w.0, noteData[a.from].normal, noteData[a.to].normal);
      var sc := scene - (ArrowMeshes(a) - ArrowMeshes(w.0)) + (ArrowMeshes(w.0) - ArrowMeshes(a));
      var lv := live - (ArrowMats(a) - ArrowMats(w.0)) + (ArrowMats(w.0) - ArrowMats(a));
      ArcRecKeeps(notes, arcs, arcData, noteData, drawing, next, scene, live, arc, r, w.1, sc, lv);
      next, scene, live, arcData := w.1, sc, lv, arcData[arc := r];
    }

    /**
     * `deleteArcConnection(scene, arc)`: the arc loses its arrows (as
     * `setArcArrows(scene, arc, false, false)` does), its tube leaves the
     * scene, the tube's geometry and material are disposed, and it is taken
     * out of `arcConnections`, the other arcs keeping their order.
     */
    method DeleteArcConnection(arc: Ref)
      requires ArcsValid() && Fresh() && arc in arcData
      modifies this`scene, this`live, this`arcData, this`arcs
      ensures ArcsValid() && Fresh()
      ensures arcData == old(arcData)[arc := Bare(old(arcData)[arc])]
      ensures var a0 := old(arcData)[arc];
        && scene == old(scene) - ArrowMeshes(a0) - {a0.mesh}
        && live == old(live) - ArrowMats(a0) - {a0.geo, a0.mat}
      ensures arcs == RemoveFirst(old(arcs), arc) && arcs == Without(old(arcs), arc)
      ensures old(Closed()) ==> Closed()
    {
      var a := arcData[arc];
      ArcDeleteKeeps(notes, arcs, arcData, noteData, drawing, next, scene, live, arc);
      var r := Reposition(SetArrows(a, false, false, next).0, noteData[a.from].normal, noteData[a.to].normal);
      scene, live, arcData, arcs := scene - ArrowMeshes(a) - {a.mesh}, live - ArrowMats(a) - {a.geo, a.mat}, arcData[arc := r], RemoveFirst(arcs, arc);
    }

    /**
     * `deleteArcsForNote(scene, note)`: every arc that touches the note is
     * deleted and the others stay in their order; a preview drawn from the
     * note is cancelled.
     */
    method DeleteArcsForNote(note: Ref)
      requires ArcsValid() && Fresh()
      modifies this`scene, this`live, this`arcData, this`arcs, this`drawing, this`edgeSpin
      ensures ArcsValid() && Fresh()
      ensures arcs == ArcsWithout(old(arcs), old(arcData), note)
      ensures arcData == Stripped(old(arcData), old(arcs), note)
      ensures var d := old(drawing);
        && scene == old(scene) - TouchingMeshes(old(arcs), old(arcData), note) - (if DrawsFrom(d, note) then {d.value.line} else {})
        && live == old(live) - TouchingResources(old(arcs), old(arcData), note) - (if DrawsFrom(d, note) then {d.value.lineGeo, d.value.lineMat} else {})
        && drawing == (if DrawsFrom(d, note) then None else d)
        && edgeSpin == (if DrawsFrom(d, note) then false else old(edgeSpin))
    {
      DeleteTouchingArcs(note);
      CancelDrawingFrom(note);
    }

    /**
     * The loop of `deleteArcsForNote(scene, note)`: walking `arcConnections`
     * from the back, each arc that touches the note is deleted.
     */
    method DeleteTouchingArcs(note: Ref)
      requires ArcsValid() && Fresh()
      modifies this`scene, this`live, this`arcData, this`arcs
      ensures ArcsValid() && Fresh()
      ensures arcs == ArcsWithout(old(arcs), old(arcData), note)
      ensures arcData == Stripped(old(arcData), old(arcs), note)
      ensures scene == old(scene) - TouchingMeshes(old(arcs), old(arcData), note)
      ensures live == old(live) - TouchingResources(old(arcs), old(arcData), note)
    {
      ghost var cs0, ad0, sc0, lv0 := arcs, arcData, scene, live;
      var i := |arcs|;
      assert arcs[i..] == [];
      while i > 0
        invariant 0 <= i <= |cs0|
        invariant arcs == cs0[..i] + ArcsWithout(cs0[i..], ad0, note)
        invariant arcData == Stripped(ad0, cs0[i..], note)
        invariant scene == sc0 - TouchingMeshes(cs0[i..], ad0, note)
        invariant live == lv0 - TouchingResources(cs0[i..], ad0, note)
        invariant ArcsValid() && Fresh()
      {
        i := i - 1;
        DropStep(cs0, ad0, sc0, lv0, note, i, arcs, scene, live);
        var c := arcs[i];
        if arcData[c].Touches(note) {
          DeleteArcConnection(c);
        }
      }
    }

    /**
     * The end of `deleteArcsForNote(scene, note)`: a preview drawn from the
     * note leaves the scene, its geometry and material are disposed, and the
     * drawing state is reset.
     */
    method CancelDrawingFrom(note: Ref)
      requires ArcsValid() && Fresh()
      modifies this`scene, this`live, this`drawing, this`edgeSpin
      ensures ArcsValid() && Fresh()
      ensures var d := old(drawing);
        && scene == old(scene) - (if DrawsFrom(d, note) then {d.value.line} else {})
        && live == old(live) - (if DrawsFrom(d, note) then {d.value.lineGeo, d.value.lineMat} else {})
        && drawing == (if DrawsFrom(d, note) then None else d)
        && edgeSpin == (if DrawsFrom(d, note) then false else old(edgeSpin))
    {
      if DrawsFrom(drawing, note) {
        var d := drawing.value;
        scene, live, drawing, edgeSpin := scene - {d.line}, live - {d.lineGeo, d.lineMat}, None, false;
      }
    }

    // ------------------------------------------------------------------
    // Note deletion
    // ------------------------------------------------------------------

    /**
     * `deleteNote(scene, controls, note, onDeleteArc)`: the note stops being
     * edited or dragged, its pin, pole and label leave the scene, its pin and
     * pole materials are disposed, its pin is unregistered, the arc cleanup
     * is called with it, and it is taken out of `notes`; rotation is turned
     * back on. With the arc cascade the arcs touching it are deleted and a
     * preview drawn from it is cancelled; with the no-op they stay.
     */
    method DeleteNote(note: Ref, onDelete: Cascade)
      requires Valid() && note in noteData
      modifies this`editing, this`dragging, this`scene, this`live, this`pinToNote, this`cascadeLog,
               this`arcData, this`arcs, this`drawing, this`edgeSpin, this`notes, this`enableRotate
      ensures Valid()
      ensures editing == (if old(editing) == Some(note) then None else old(editing))
      ensures dragging == (if old(dragging) == Some(note) then None else old(dragging))
      ensures pinToNote == Delete(old(pinToNote), old(noteData)[note].pin)
      ensures notes == Without(old(notes), note)
      ensures cascadeLog == old(cascadeLog) + [note] && enableRotate
      ensures var r := old(noteData)[note];
        ArcCleanup(onDelete, note,
                   old(arcs), old(arcData), old(drawing), old(scene) - {r.pin, r.pole, r.overlay}, old(live) - {r.pinMat, r.poleMat}, old(edgeSpin),
                   arcs, arcData, drawing, scene, live, edgeSpin)
    {
      UnregisterNote(note);
      RunCascade(note, onDelete);
      enableRotate := true;
    }

    /**
     * `onDeleteArc(note)`: the arc cleanup `deleteNote` was handed, either
     * the default no-op or `deleteArcsForNote(scene, note)`; the call is
     * logged.
     */
    method RunCascade(note: Ref, onDelete: Cascade)
      requires Valid()
      modifies this`scene, this`live, this`arcData, this`arcs, this`drawing, this`edgeSpin, this`cascadeLog
      ensures Valid() && cascadeLog == old(cascadeLog) + [note]
      ensures ArcCleanup(onDelete, note, old(arcs), old(arcData), old(drawing), old(scene), old(live), old(edgeSpin),
                         arcs, arcData, drawing, scene, live, edgeSpin)
    {
      cascadeLog := cascadeLog + [note];
      if onDelete == ArcCascade {
        DeleteArcsForNote(note);
      }
    }

    /**
     * The registry part of `deleteNote`: the note is let go of, detached and
     * taken out of `notes`, the other notes keeping their order.
     */
    method UnregisterNote(note: Ref)
      requires Valid() && note in noteData
      modifies this`editing, this`dragging, this`scene, this`live, this`pinToNote, this`notes
      ensures Valid()
      ensures editing == (if old(editing) == Some(note) then None else old(editing))
      ensures dragging == (if old(dragging) == Some(note) then None else old(dragging))
      ensures var r := noteData[note];
        && scene == old(scene) - {r.pin, r.pole, r.overlay} && live == old(live) - {r.pinMat, r.poleMat}
        && pinToNote == Delete(old(pinToNote), r.pin)
      ensures notes == Without(old(notes), note)
    {
      ghost var ns0, pins0, dr0, ed0 := notes, pinToNote, dragging, editing;
      DetachNote(note);
      DeleteNoteKeeps(ns0, noteData, pins0, dr0, ed0, note, dragging, editing);
      notes := RemoveFirst(notes, note);
    }

    /**
     * The first half of `deleteNote`: the singletons let go of the note, its
     * objects leave the scene, its materials are disposed and its pin's entry
     * is deleted from `pinToNote`.
     */
    method DetachNote(note: Ref)
      requires Valid() && note in noteData
      modifies this`editing, this`dragging, this`scene, this`live, this`pinToNote
      ensures ArcsValid() && Fresh()
      ensures editing == (if old(editing) == Some(note) then None else old(editing))
      ensures dragging == (if old(dragging) == Some(note) then None else old(dragging))
      ensures var r := noteData[note];
        && scene == old(scene) - {r.pin, r.pole, r.overlay} && live == old(live) - {r.pinMat, r.poleMat}
        && pinToNote == Delete(old(pinToNote), r.pin)
    {
      var r := noteData[note];
      ShrinkKeeps(next, scene, live, noteData, arcData, scene - {r.pin, r.pole, r.overlay}, live - {r.pinMat, r.poleMat});
      editing := if editing == Some(note) then None else editing;
      dragging := if dragging == Some(note) then None else dragging;
      scene, live, pinToNote := scene - {r.pin, r.pole, r.overlay}, live - {r.pinMat, r.poleMat}, Delete(pinToNote, r.pin);
    }

    // ------------------------------------------------------------------
    // Edit mode
    // ------------------------------------------------------------------

    /**
     * What the user types into the label of the note in edit mode: the text
     * span's content changes, the committed text does not.
     */
    method TypeText(t: string)
      requires Valid() && editing.Some?
      modifies this`noteData
      ensures Valid()
      ensures var n := editing.value; noteData == old(noteData)[n := old(noteData)[n].(shown := t)]
    {
      var n := editing.value;
      var r := noteData[n].(shown := t);
      NoteRecKeeps(notes, noteData, pinToNote, dragging, editing, arcs, arcData, drawing, next, scene, live, n, r);
      noteData := noteData[n := r];
    }

    /**
     * `enterEditMode(note, controls)`: a note already in edit mode is first
     * committed as `exitEditMode(null, controls)` does, which never deletes
     * it; then `note` is the one note in edit mode and rotation is off.
     */
    method EnterEditMode(note: Ref)
      requires Valid() && note in notes
      modifies this`editing, this`noteData, this`enableRotate
      ensures Valid()
      ensures editing == Some(note) && !enableRotate
      ensures old(editing).None? ==> noteData == old(noteData)
      ensures old(editing).Some? ==> noteData == old(noteData)[old(editing).value := Committed(old(noteData)[old(editing).value])]
    {
      if editing.Some? {
        Commit();
      }
      editing, enableRotate := Some(note), false;
    }

    /**
     * `exitEditMode(scene, controls)`, with `withScene` telling whether a
     * scene is passed: nothing happens when no note is in edit mode;
     * otherwise edit mode ends, and the text typed, less one trailing line
     * feed, either is blank and (given a scene) the note is deleted with the
     * arc cleanup wired in, or becomes the note's text.
     */
    method ExitEditMode(withScene: bool)
      requires Valid()
      modifies this`editing, this`dragging, this`scene, this`live, this`pinToNote, this`cascadeLog,
               this`arcData, this`arcs, this`drawing, this`edgeSpin, this`notes, this`enableRotate, this`noteData
      ensures Valid()
      ensures old(editing).None? ==> unchanged(this)
      ensures old(editing).Some? ==> editing.None? && enableRotate
      ensures old(editing).Some? ==>
        var n := old(editing).value;
        if Blank(StripTrailingNewline(old(noteData)[n].shown)) && withScene then
          notes == Without(old(notes), n) && cascadeLog == old(cascadeLog) + [n]
        else
          notes == old(notes) && noteData == old(noteData)[n := Committed(old(noteData)[n])]
    {
      if editing.None? {
        return;
      }
      var note := editing.value;
      var newText := StripTrailingNewline(noteData[note].shown);
      TrimEmptyIffBlank(newText);
      if Trim(newText) == "" && withScene {
        DeleteNote(note, onDeleteArc);
      } else {
        Commit();
      }
    }

    /**
     * The commit of `exitEditMode`: edit mode ends, the label's text less one
     * trailing line feed becomes the note's text and the label's content,
     * and rotation is back on.
     */
    method Commit()
      requires Valid() && editing.Some?
      modifies this`editing, this`noteData, this`enableRotate
      ensures Valid() && editing.None? && enableRotate
      ensures var n := old(editing).value; noteData == old(noteData)[n := Committed(old(noteData)[n])]
    {
      var n := editing.value;
      var r := Committed(noteData[n]);
      NoteRecKeeps(notes, noteData, pinToNote, dragging, editing, arcs, arcData, drawing, next, scene, live, n, r);
      editing, noteData, enableRotate := None, noteData[n := r], true;
    }

    // ------------------------------------------------------------------
    // Dragging a note
    // ------------------------------------------------------------------

    /**
     * The `pointerdown` listener on a note's label: a mouse press with a
     * button other than the primary one, or a press on the note in edit mode,
     * is ignored; otherwise the note is the one being dragged and rotation is
     * off.
     */
    method BeginDrag(note: Ref, e: PointerEvent)
      requires Valid() && note in notes
      modifies this`dragging, this`enableRotate
      ensures Valid()
      ensures IgnoredPress(e) || editing == Some(note) ==> dragging == old(dragging) && enableRotate == old(enableRotate)
      ensures !IgnoredPress(e) && editing != Some(note) ==> dragging == Some(note) && !enableRotate
    {
      if IgnoredPress(e) {
        return;
      }
      if editing == Some(note) {
        return;
      }
      dragging, enableRotate := Some(note), false;
    }

    /**
     * `onDragMove(sphere, raycaster, setEdgeSpin)`, with `sphereHit` the
     * first point where the pointer's ray meets the sphere, if any: without a
     * dragged note nothing happens; a hit turns edge spin off and moves the
     * dragged note to the hit's direction, placing its objects there; a miss
     * turns edge spin on and leaves the note where it is.
     */
    method OnDragMove(sphereHit: Option<Vec>)
      requires Valid()
      modifies this`noteData, this`spinLog
      ensures Valid()
      ensures old(dragging).None? ==> noteData == old(noteData) && spinLog == old(spinLog)
      ensures dragging.Some? ==> spinLog == old(spinLog) + [sphereHit.None?]
      ensures dragging.Some? && sphereHit.Some? ==>
        var n := dragging.value; var normal := normalize(sphereHit.value);
        noteData == old(noteData)[n := old(noteData)[n].(normal := normal, at := PlacementOf(normal))]
      ensures sphereHit.None? ==> noteData == old(noteData)
    {
      if dragging.None? {
        return;
      }
      var n := dragging.value;
      if sphereHit.Some? {
        spinLog := spinLog + [false];
        var r := noteData[n];
        var normal := normalize(sphereHit.value);
        NoteRecKeeps(notes, noteData, pinToNote, dragging, editing, arcs, arcData, drawing, next, scene, live, n,
                     r.(normal := normal, at := PlacementOf(normal)));
        noteData := noteData[n := r.(normal := normal, at := PlacementOf(normal))];
      } else {
        spinLog := spinLog + [true];
      }
    }

    /** `onDragEnd(controls)`: without a dragged note nothing happens; otherwise the drag ends and rotation is back on. */
    method OnDragEnd()
      requires Valid()
      modifies this`dragging, this`enableRotate
      ensures Valid()
      ensures old(dragging).None? ==> enableRotate == old(enableRotate) && dragging.None?
      ensures old(dragging).Some? ==> dragging.None? && enableRotate
    {
      if dragging.None? {
        return;
      }
      dragging, enableRotate := None, true;
    }

    // ------------------------------------------------------------------
    // Picking
    // ------------------------------------------------------------------

    /**
     * `hitPin(raycaster)`, with `firstHit` the nearest of the pins of
     * `pinToNote` that the pointer's ray meets, if any: the note registered
     * under that pin, if there is one.
     */
    function HitPin(firstHit: Option<Ref>): (r: Option<Ref>)
      requires NotesValid()
      reads this`notes, this`noteData, this`pinToNote, this`dragging, this`editing
      ensures r.Some? ==> firstHit.Some? && r.value in notes && noteData[r.value].pin == firstHit.value
      ensures r.None? <==> firstHit.None? || forall n | n in notes :: noteData[n].pin != firstHit.value
    {
      if firstHit.None? then None
      else
        PinLookup(notes, noteData, firstHit.value);
        Get(pinToNote, firstHit.value)
    }

    /**
     * `hitNoteDiv(clientX, clientY)`, with `under` the note label the element
     * under the point lies in, if any: the first note of `notes` with that
     * label.
     */
    function HitNoteDiv(under: Option<Ref>): (r: Option<Ref>)
      requires NotesValid()
      reads this`notes, this`noteData, this`pinToNote, this`dragging, this`editing
      ensures r.Some? ==> under.Some? && r.value in notes && noteData[r.value].overlay == under.value
      ensures r.None? <==> under.None? || forall n | n in notes :: noteData[n].overlay != under.value
    {
      if under.None? then None else FindByLabel(notes, noteData, under.value)
    }

    /**
     * `hitPinAtScreen(clientX, clientY, radiusPx, camera, domElement)`: the
     * entries of `pinToNote` are scanned in order, pins beyond the far plane
     * skipped, and the note of the pin nearest to the point on screen, and
     * strictly within the radius, is returned; of equally near pins the first
     * wins.
     */
    method HitPinAtScreen(clientX: real, clientY: real, radius: real, cam: Camera) returns (r: Option<Ref>)
      requires Valid()
      ensures r == PickAtScreen(pinToNote, noteData, cam, clientX, clientY, radius)
      ensures r.Some? ==> r.value in notes
    {
      ghost var ds := PinDists(pinToNote, noteData, cam, clientX, clientY);
      ghost var k := -1;
      var best: Option<Ref> := None;
      var bestDist := radius * radius;
      for i := 0 to |pinToNote|
        invariant k == Nearest(ds[..i], radius * radius)
        invariant best == (if k == -1 then None else Some(pinToNote[k].1))
        invariant bestDist == (if k == -1 then radius * radius else ds[k].value)
      {
        assert ds[..i + 1][..i] == ds[..i];
        var note := pinToNote[i].1;
        var d := ScreenDist2(cam, noteData[note].at.head, clientX, clientY);
        if d.None? {
          continue;
        }
        if d.value < bestDist {
          bestDist := d.value;
          best := Some(note);
          k := i;
        }
      }
      assert ds[..|pinToNote|] == ds;
      r := best;
    }

    /** Arc `c` has a sample within 8 px of the client point, its ends read as they are now. */
    ghost predicate ArcNear(c: Ref, cam: Camera, x: real, y: real)
      requires ArcsValid()
      reads this`arcs, this`arcData, this`noteData, this`drawing
    {
      c in arcData && NearArc(normalize, cam, noteData[arcData[c].from].normal, noteData[arcData[c].to].normal, x, y)
    }

    /**
     * `hitArc(clientX, clientY, camera, domElement)`: the arcs are tried in
     * the order of `arcConnections` and, for each, its samples `i = 0 .. 64`
     * in order, skipping those beyond the far plane; the first arc with a
     * sample strictly within 8 px is returned, and none when no arc has one.
     */
    method HitArc(clientX: real, clientY: real, cam: Camera) returns (r: Option<Ref>)
      requires ArcsValid()
      ensures r.None? <==> forall j :: 0 <= j < |arcs| ==> !ArcNear(arcs[j], cam, clientX, clientY)
      ensures r.Some? ==> exists j :: 0 <= j < |arcs| && arcs[j] == r.value && ArcNear(r.value, cam, clientX, clientY)
                                    && forall i :: 0 <= i < j ==> !ArcNear(arcs[i], cam, clientX, clientY)
    {
      for j := 0 to |arcs|
        invariant forall i :: 0 <= i < j ==> !ArcNear(arcs[i], cam, clientX, clientY)
      {
        var a := arcData[arcs[j]];
        var from, to := noteData[a.from].normal, noteData[a.to].normal;
        for i := 0 to ArcSegments + 1
          invariant forall i' :: 0 <= i' < i ==> !SampleNear(normalize, cam, from, to, clientX, clientY, i')
        {
          var d := ScreenDist2(cam, ArcPoint(normalize, from, to, i), clientX, clientY);
          if d.None? {
            continue;
          }
          if d.value < ArcHitThreshold {
            assert SampleNear(normalize, cam, from, to, clientX, clientY, i);
            return Some(arcs[j]);
          }
        }
      }
      return None;
    }

    // ------------------------------------------------------------------
    // Drawing an arc
    // ------------------------------------------------------------------

    /**
     * The note a press starts an arc from: for a mouse, the note whose pin
     * the ray meets first (`hitPin`); for pen and touch, the pin nearest on
     * screen within 30 px (`hitPinAtScreen`).
     */
    function ArcSource(e: PointerEvent, pinHit: Option<Ref>, cam: Camera): (r: Option<Ref>)
      requires NotesValid()
      reads this`notes, this`noteData, this`pinToNote, this`dragging, this`editing
      ensures r.Some? ==> r.value in notes
    {
      if e.pointerType == Mouse then HitPin(pinHit)
      else
        var r := PickAtScreen(pinToNote, noteData, cam, e.clientX, e.clientY, TouchRadius);
        assert r.Some? ==> r.value in notes by {
          if r.Some? {
            var k :| FirstNearest(PinDists(pinToNote, noteData, cam, e.clientX, e.clientY), TouchRadius * TouchRadius, k) && r.value == pinToNote[k].1;
            assert pinToNote[k].1 == notes[k];
          }
        }
        r
    }

    /**
     * The note the pointer is over while drawing or on release:
     * `hitPin(raycaster) || hitNoteDiv(clientX, clientY)`.
     */
    function ArcTarget(pinHit: Option<Ref>, under: Option<Ref>): (r: Option<Ref>)
      requires NotesValid()
      reads this`notes, this`noteData, this`pinToNote, this`dragging, this`editing
      ensures r.Some? ==> r.value in notes
      ensures r.None? <==> HitPin(pinHit).None? && HitNoteDiv(under).None?
    {
      OrElse(HitPin(pinHit), HitNoteDiv(under))
    }

    /**
     * `onArcPointerDown(e, ...)`: a press that is not ignored and lands on a
     * note starts a preview from it: a new line material (opacity 0.4), a new
     * position buffer holding the degenerate arc from the note to itself and
     * a new line over them, which joins the scene; the last target is the
     * source's normal, edge spin and rotation are off. Any other press
     * changes nothing. The result tells whether a preview was started.
     */
    method OnArcPointerDown(e: PointerEvent, pinHit: Option<Ref>, cam: Camera) returns (started: bool)
      requires Valid()
      modifies this`next, this`scene, this`live, this`drawing, this`lastArcTarget, this`edgeSpin, this`enableRotate
      ensures Valid()
      ensures started <==> !IgnoredPress(e) && old(ArcSource(e, pinHit, cam)).Some?
      ensures !started ==> unchanged(this)
      ensures started ==>
        var s := old(ArcSource(e, pinHit, cam)).value; var n := noteData[s].normal;
        && drawing.Some? && drawing.value.source == s && drawing.value.opacity == LooseOpacity
        && fresh(drawing.value.buf) && drawing.value.buf[..] == ArcPoints(normalize, n, n)
        && drawing.value.lineMat == old(next) && drawing.value.lineGeo == old(next) + 1 && drawing.value.line == old(next) + 2
        && next == old(next) + 3
        && scene == old(scene) + {drawing.value.line} && live == old(live) + {drawing.value.lineMat, drawing.value.lineGeo}
        && lastArcTarget == n && !edgeSpin && !enableRotate
      ensures old(Closed()) ==> Closed()
    {
      if IgnoredPress(e) {
        return false;
      }
      var source := PickSource(e, pinHit, cam);
      if source.None? {
        return false;
      }
      StartDrawing(source.value);
      return true;
    }

    /** The source lookup of `onArcPointerDown`: `hitPin` for a mouse, `hitPinAtScreen` within 30 px otherwise. */
    method PickSource(e: PointerEvent, pinHit: Option<Ref>, cam: Camera) returns (source: Option<Ref>)
      requires Valid()
      ensures source == ArcSource(e, pinHit, cam)
    {
      if e.pointerType == Mouse {
        source := HitPin(pinHit);
      } else {
        source := HitPinAtScreen(e.clientX, e.clientY, TouchRadius, cam);
      }
    }

    /**
     * The preview part of `onArcPointerDown`, once the source note `s` is
     * found: a new line material, a new position buffer holding the arc from
     * the note to itself and a new line over them, which joins the scene; the
     * last target is the source's normal, edge spin and rotation are off.
     */
    method StartDrawing(s: Ref)
      requires ArcsValid() && Fresh() && s in noteData
      modifies this`next, this`scene, this`live, this`drawing, this`lastArcTarget, this`edgeSpin, this`enableRotate
      ensures ArcsValid() && Fresh()
      ensures drawing.Some? && fresh(drawing.value.buf)
      ensures drawing == Some(Drawing(s, old(next) + 2, old(next), old(next) + 1, drawing.value.buf, LooseOpacity))
      ensures drawing.value.buf[..] == ArcPoints(normalize, noteData[s].normal, noteData[s].normal)
      ensures next == old(next) + 3 && scene == old(scene) + {old(next) + 2} && live == old(live) + {old(next), old(next) + 1}
      ensures lastArcTarget == noteData[s].normal && !edgeSpin && !enableRotate
      ensures old(Closed()) && s in notes ==> Closed()
    {
      var n := noteData[s].normal;
      var buf := NewArcLine(normalize, n, n);
      var d := Drawing(s, next + 2, next, next + 1, buf, LooseOpacity);
      StartKeeps(notes, arcs, arcData, noteData, drawing, next, scene, live, d);
      next, scene, live, drawing, lastArcTarget, edgeSpin, enableRotate :=
        next + 3, scene + {d.line}, live + {d.lineMat, d.lineGeo}, Some(d), n, false, false;
    }

    /**
     * `onArcPointerMove(sphere, raycaster, clientX, clientY, setEdgeSpin)`,
     * with `sphereHit` the first point where the ray meets the sphere, if
     * any: without a preview nothing happens. Over a note other than the
     * source the preview snaps to it at full opacity; otherwise, over the
     * sphere it follows the hit's direction at opacity 0.4; in both cases
     * edge spin is off and the buffer holds the arc from the source to the
     * new last target. Off the sphere edge spin turns on and the preview
     * stays as it was.
     */
    method OnArcPointerMove(pinHit: Option<Ref>, under: Option<Ref>, sphereHit: Option<Vec>)
      requires Valid()
      modifies this`edgeSpin, this`spinLog, this`lastArcTarget, this`drawing
      modifies if drawing.Some? then {drawing.value.buf} else {}
      ensures Valid()
      ensures old(drawing).None? ==> unchanged(this)
      ensures old(drawing).Some? ==>
        var d := old(drawing).value; var t := old(ArcTarget(pinHit, under));
        if (t.Some? && t.value != d.source) || sphereHit.Some? then
          && lastArcTarget == (if t.Some? && t.value != d.source then noteData[t.value].normal else normalize(sphereHit.value))
          && drawing == Some(d.(opacity := if t.Some? && t.value != d.source then SnappedOpacity else LooseOpacity))
          && d.buf[..] == ArcPoints(normalize, noteData[d.source].normal, lastArcTarget)
          && !edgeSpin && spinLog == old(spinLog) + [false]
        else
          && lastArcTarget == old(lastArcTarget) && drawing == old(drawing) && d.buf[..] == old(d.buf[..])
          && edgeSpin && spinLog == old(spinLog) + [true]
      ensures old(Closed()) ==> Closed()
    {
      if drawing.None? {
        return;
      }
      var d := drawing.value;
      var t := ArcTarget(pinHit, under);
      if t.Some? && t.value != d.source {
        Steer(noteData[t.value].normal, SnappedOpacity);
      } else if sphereHit.Some? {
        Steer(normalize(sphereHit.value), LooseOpacity);
      } else {
        edgeSpin, spinLog := true, spinLog + [true];
      }
    }

    /**
     * The preview follows `to`: the buffer holds the arc from the source to
     * `to`, which becomes the last target, the preview's opacity becomes
     * `opacity` and edge spin is off.
     */
    method Steer(to: Vec, opacity: real)
      requires ArcsValid() && drawing.Some?
      modifies this`edgeSpin, this`spinLog, this`lastArcTarget, this`drawing, drawing.value.buf
      ensures ArcsValid()
      ensures var d := old(drawing).value;
        && lastArcTarget == to && drawing == Some(d.(opacity := opacity))
        && d.buf[..] == ArcPoints(normalize, noteData[d.source].normal, to)
        && !edgeSpin && spinLog == old(spinLog) + [false]
      ensures old(Closed()) ==> Closed()
    {
      var d := drawing.value;
      UpdateArc(d.buf, normalize, noteData[d.source].normal, to);
      edgeSpin, spinLog, lastArcTarget, drawing := false, spinLog + [false], to, Some(d.(opacity := opacity));
    }

    /**
     * `onArcPointerUp(e, scene, controls, raycaster)`: without a preview, or
     * on a mouse release of a button other than the primary one, nothing
     * happens. Otherwise the preview line leaves the scene and its geometry
     * and material are disposed; if the release is over a note other than
     * the source, a new arc from the source to that note, without arrows, is
     * appended to `arcConnections`, its tube (a new material, a new geometry
     * over the arc's samples and a new mesh) joining the scene. Then the
     * preview is gone, edge spin is off and rotation is back on.
     */
    method OnArcPointerUp(e: PointerEvent, pinHit: Option<Ref>, under: Option<Ref>)
      requires Valid()
      modifies this`next, this`scene, this`live, this`arcData, this`arcs, this`drawing, this`edgeSpin, this`enableRotate
      ensures Valid()
      ensures old(drawing).None? || IgnoredPress(e) ==> unchanged(this)
      ensures old(drawing).Some? && !IgnoredPress(e) ==>
        && drawing.None? && !edgeSpin && enableRotate
        && Released(normalize, noteData, old(drawing).value, old(ArcTarget(pinHit, under)),
                    old(next), old(arcs), old(arcData), old(scene), old(live), next, arcs, arcData, scene, live)
      ensures old(Closed()) ==> Closed()
    {
      if drawing.None? || IgnoredPress(e) {
        return;
      }
      var t := ArcTarget(pinHit, under);
      Release(t);
    }

    method Release(t: Option<Ref>)
      requires ArcsValid() && Fresh() && drawing.Some? && (t.Some? ==> t.value in noteData)
      modifies this`next, this`scene, this`live, this`arcData, this`arcs, this`drawing, this`edgeSpin, this`enableRotate
      ensures ArcsValid() && Fresh()
      ensures drawing.None? && !edgeSpin && enableRotate
      ensures Released(normalize, noteData, old(drawing).value, t,
                       old(next), old(arcs), old(arcData), old(scene), old(live), next, arcs, arcData, scene, live)
      ensures old(Closed()) && (t.Some? ==> t.value in notes) ==> Closed()
    {
      var d := drawing.value;
      ghost var next0, cs0, ad0, sc0, lv0 := next, arcs, arcData, scene, live;
      if t.Some? && t.value != d.source {
        ConnectPreview(t.value);
      } else {
        DropPreview(t);
      }
      ReleaseKeeps(normalize, notes, noteData, d, t, next0, cs0, ad0, sc0, lv0, next, arcs, arcData, scene, live);
    }

    /**
     * The connecting branch of `onArcPointerUp`, for a release over note `t`
     * other than the source: the preview line leaves the scene, its geometry
     * and material are disposed, and a new arc from the source to `t` is
     * appended to `arcConnections`, its tube joining the scene. The preview
     * is gone, edge spin is off and rotation is back on.
     */
    method ConnectPreview(t: Ref)
      requires Fresh() && drawing.Some? && drawing.value.source in noteData && t in noteData && t != drawing.value.source
      modifies this`next, this`scene, this`live, this`arcData, this`arcs, this`drawing, this`edgeSpin, this`enableRotate
      ensures drawing.None? && !edgeSpin && enableRotate
      ensures Released(normalize, noteData, old(drawing).value, Some(t),
                       old(next), old(arcs), old(arcData), old(scene), old(live), next, arcs, arcData, scene, live)
    {
      var d := drawing.value;
      var mat, geo, mesh, a := next, next + 1, next + 2, next + 3;
      var path := MakeArcTube(normalize, noteData[d.source].normal, noteData[t].normal);
      var r := ArcRec(d.source, t, mesh, mat, geo, path, None, None);
      next, scene, live, arcData, arcs, drawing, edgeSpin, enableRotate :=
        next + 4, scene - {d.line} + {mesh}, live - {d.lineGeo, d.lineMat} + {mat, geo}, arcData[a := r], arcs + [a], None, false, true;
    }

    /**
     * The other branch of `onArcPointerUp`, for a release over no note or
     * over the source (`t`): the preview line leaves the scene, its geometry
     * and material are disposed, the preview is gone, edge spin is off and
     * rotation is back on.
     */
    method DropPreview(t: Option<Ref>)
      requires drawing.Some? && (t.None? || t.value == drawing.value.source)
      modifies this`scene, this`live, this`drawing, this`edgeSpin, this`enableRotate
      ensures drawing.None? && !edgeSpin && enableRotate
      ensures Released(normalize, noteData, old(drawing).value, t,
                       next, arcs, arcData, old(scene), old(live), next, arcs, arcData, scene, live)
    {
      var d := drawing.value;
      scene, live, drawing, edgeSpin, enableRotate := scene - {d.line}, live - {d.lineGeo, d.lineMat}, None, false, true;
    }


    /**
     * `updateNoteVisibility(camera)`, with the camera at `cameraPosition`:
     * every registered note takes the back-face fade for the camera's
     * direction; no other record changes.
     */
    method UpdateNoteVisibility(cameraPosition: Vec)
      requires Valid()
      modifies this`noteData
      ensures Valid()
      ensures noteData.Keys == old(noteData).Keys
      ensures forall n | n in noteData ::
        noteData[n] == if n in notes then Shaded(old(noteData)[n], normalize(cameraPosition)) else old(noteData)[n]
    {
      var nd := ShadeNotes(notes, noteData, normalize(cameraPosition));
      RestyleKeeps(notes, noteData, pinToNote, dragging, editing, arcs, arcData, drawing, next, scene, live, nd);
      noteData := nd;
    }

    // ------------------------------------------------------------------
    // Arc rebuilds
    // ------------------------------------------------------------------

    /**
     * `updateArcsForDrag(n)` for `only == Some(n)` and `rebuildAllArcs()` for
     * `only == None`: every selected arc of `arcConnections`, in order, has
     * its tube geometry disposed and replaced by a new one over the samples
     * between its ends' current normals, and its arrows placed again.
     */
    method RebuildArcs(only: Option<Ref>)
      requires ArcsValid() && Fresh()
      modifies this`next, this`live, this`arcData
      ensures ArcsValid() && Fresh()
      ensures Tubes(arcData, live, next) == Rebuild(normalize, noteData, only, arcs, old(Tubes(arcData, live, next)))
      ensures live == old(live) - OldGeos(noteData, only, arcs, old(arcData)) + Span(old(next), next)
      ensures old(Closed()) ==> Closed()
    {
      var s := RebuildTubes(normalize, noteData, only, arcs, Tubes(arcData, live, next));
      RebuildKeeps(normalize, notes, noteData, only, arcs, drawing, scene, Tubes(arcData, live, next));
      RebuildDisposes(normalize, noteData, only, arcs, Tubes(arcData, live, next));
      arcData, live, next := s.ad, s.live, s.next;
    }
  }
}
