/**
 * The note data model: the serialisable `Pin` record and the runtime note,
 * a place on the unit sphere together with the visual objects it owns.
 */
module Pins {
  import opened Wrappers
  import opened Geometry

  /**
   * The identity of a JavaScript object: a note, an arc, a mesh, a
   * material, a geometry or an overlay label. Identities are handed out by
   * an allocation counter, so a new object is one not seen before.
   */
  type Ref = nat

  /** The serialisable record `{ id, position: {x, y, z}, label, color }`. */
  datatype Pin = Pin(id: string, position: Vec, labelText: string, color: string)

  /** Default colour of a new pin. */
  const DefaultColor := "#f9ffa0"

  /**
   * `createPin(position, label = "", color = "#f9ffa0")`. The identifier
   * comes from `crypto.randomUUID()`; here it is handed in as `uuid`. An
   * argument left `undefined` is `None`.
   */
  function CreatePin(uuid: string, position: Vec, caption: Option<string>, color: Option<string>): (p: Pin)
    ensures p.id == uuid && p.position == position
    ensures caption.Some? ==> p.labelText == caption.value
    ensures caption.None? ==> p.labelText == ""
    ensures color.Some? ==> p.color == color.value
    ensures color.None? ==> p.color == "#f9ffa0"
  {
    Pin(uuid, position, caption.GetOr(""), color.GetOr(DefaultColor))
  }

  /** Lift of the pole and of the label above the sphere surface. */
  const PoleLift: real := 1.05
  const LabelLift: real := 1.1

  /** Positions of a note's pin head, pole and label. */
  datatype Placement = Placement(head: Vec, pole: Vec, overlay: Vec)

  /**
   * The positions `applyNoteTransform` derives from a normal: the pin head
   * on the surface, the pole at 1.05 and the label at 1.1 times the normal.
   */
  function PlacementOf(normal: Vec): Placement {
    Placement(normal, Scale(normal, PoleLift), Scale(normal, LabelLift))
  }

  /**
   * A runtime `Note`. `normal` is its place on the unit sphere, `text` the
   * committed text and `shown` what the label's text span currently holds
   * (what the user types goes there first). `pin`, `pole` and `overlay` (the
   * label) are its three scene objects, `pinMat` and `poleMat` the materials it owns;
   * `at` is where its objects were last placed, `opacity` the back-face fade
   * of its materials and label, and `interactive` whether the label takes
   * pointer events.
   */
  datatype NoteRec = NoteRec(
    normal: Vec, text: string, shown: string,
    pin: Ref, pinMat: Ref, pole: Ref, poleMat: Ref, overlay: Ref,
    at: Placement, opacity: real, interactive: bool)
  {
    /** The objects sit where the normal says. */
    predicate Placed() {
      at == PlacementOf(normal)
    }

    /** The five objects of the note are five different objects. */
    predicate Separate() {
      && pin != pinMat && pin != pole && pin != poleMat && pin != overlay
      && pinMat != pole && pinMat != poleMat && pinMat != overlay
      && pole != poleMat && pole != overlay
      && poleMat != overlay
    }
  }

}
