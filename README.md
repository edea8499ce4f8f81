# mind-orb annotations in Dafny

mind-orb puts notes on a 3D globe and joins them with arcs. This project models
the part that keeps track of them. That part is three TypeScript modules:

- the note manager (`src/pins/noteManager.ts`): the ordered `notes` list, the
  `pinToNote` Map from a pin mesh to its note, and the `draggingNote` and
  `editingNote` singletons. It adds and deletes notes and runs the edit and
  drag interactions.
- the arc manager (`src/lines/arcManager.ts`): the `arcConnections` list, the
  `drawingArc` preview, `edgeSpin` and `lastArcTarget`. It toggles arrow heads,
  deletes arcs (also as the cascade of a note deletion), runs the
  press–move–release protocol that draws a new arc, and hit-tests and rebuilds
  arcs.
- the note factory (`src/pins/pin.ts`): `createPin` and `createNoteMeshes`.

The two managers call each other, so their module state lives in one object,
`Annotations.Session`. Its methods change that state in place, with `modifies`
clauses per field. JavaScript object identities are `Ref`s, handed out by an
allocation counter `next`. The records of notes and arcs live in the maps
`noteData` and `arcData`, keyed by identity. A deleted object keeps its record,
so a stale reference still reads it, as in the source.

The scene is the set `scene` of its children. The set `live` holds every
material and geometry that has been allocated and not yet disposed. Every
effect on the scene and on resources is stated exactly: what joins, what
leaves, what is disposed.

`Valid()` is the invariant all operations keep. It says:

- the registries agree (`pinToNote` has exactly one entry per note, in the
  same order);
- every registered note sits where its normal says;
- every arc joins two different notes, so no arc runs from a note to itself;
- the singletons refer to registered notes;
- every identity in use, arc geometries included, is below the counter.

`Closed()` says that every arc and the preview end at registered notes. It is
kept separately. Note deletion only keeps it when the arc cascade is wired in;
the default callback is a no-op.

Modules:

- `Wrappers`, `Seqs`, `Text`: options, list removal (`indexOf` + `splice`) and
  the string rules of the edit commit.
- `Geometry`: vectors as reals, the 65 samples of an arc, the screen distance
  under a camera, and the back-face fade.
- `JsMap`: a JavaScript `Map` as an insertion-ordered list of entries with
  `get`, `set` and `delete`.
- `Picking`: the running-minimum and first-match selection rules of the
  screen-space hit tests.
- `Pins`: the `Pin` record, `createPin`, and the note record.
- `Arcs`: the arc and preview records, arrow toggling and the arc buffers.
- `Registry`: `notes` and `pinToNote` kept in step.
- `Invariants`: the invariant's parts over plain values, with one small lemma
  per kind of state change.
- `Rebuilds`: the arc rebuilds of the animation loop.
- `Annotations`: the session object and its operations.

## Model

| member | source | states |
|---|---|---|
| Pins.CreatePin | src/pins/pin.ts:15-26 | The id is the fresh identifier handed in. The position is the one given. The label defaults to "" and the colour to "#f9ffa0"; a given label or colour is kept as is. |
| Annotations.Session.CreateNoteMeshes | src/pins/pin.ts:71-108 | The new note's normal is the normalised position and its text is the given text. It owns a new pin material and a new pole material, and its five objects are new and pairwise different. The scene gains exactly the pin, the pole and the label. The live resources gain exactly the two materials; the shared geometries are not allocated. No other note record changes. |
| Annotations.Session.ApplyNoteTransform | src/pins/noteManager.ts:32-38 | Only the note's positions change: the pin head goes on the normal, the pole to 1.05 and the label to 1.1 times it. The note is then placed. |
| Annotations.Session.AddNote | src/pins/noteManager.ts:58-67 | The new note is appended to `notes`, and `pinToNote` gains exactly its pin's entry, at the end. Earlier notes and their records are unchanged. The note is placed at its normal, and its three objects join the scene. The invariant and closure are kept. |
| Registry.AddRegistered | src/pins/noteManager.ts:65-67 | `pinToNote.set` of a new pin, followed by `notes.push`, keeps `pinToNote` equal to the entries of `notes` in order. |
| Registry.DeleteRegistered | src/pins/noteManager.ts:136-142 | `pinToNote.delete(pin)` and the removal from `notes` keep the two in step. This holds both for a registered note and for one whose pin is not registered. |
| Registry.DeleteUnregistered | src/pins/noteManager.ts:136-142 | Deleting a note that is not in `notes` leaves `notes` and `pinToNote` unchanged. |
| Registry.AddThenDelete | src/pins/noteManager.ts:64-142 | Adding a new note and then deleting it restores `notes` and `pinToNote` exactly. |
| Registry.PinLookup | src/pins/noteManager.ts:196 | `pinToNote.get(pin)` finds a registered note with that pin, and finds nothing exactly when no registered note has it. |
| Seqs.RemoveFirstIsWithout | src/pins/noteManager.ts:141-142 | On a list without duplicates, `indexOf` + `splice` removes exactly the note and keeps the rest in order; the result has no duplicates. |
| Seqs.WithoutAbsent | src/pins/noteManager.ts:141-142 | Removing an absent element changes nothing. |
| JsMap.Get | src/pins/noteManager.ts:196 | `get` returns the value of the first entry with the key, or nothing when there is none. |
| JsMap.GetSet | src/pins/noteManager.ts:65 | After `set(k, v)` on unique keys, `get(k)` is `v` and every other key reads as before. |
| JsMap.GetDelete | src/pins/noteManager.ts:136 | After `delete(k)` on unique keys, `get(k)` is nothing and every other key reads as before. |
| Invariants.AddNoteKeeps | src/pins/noteManager.ts:64-67 | Registering a new placed note with fresh identities keeps the invariant and closure. |
| Annotations.Session.DeleteNote | src/pins/noteManager.ts:119-144 | `editingNote` and `draggingNote` are cleared only when they are the note. Its pin, pole and label leave the scene and its two materials are disposed. `pinToNote` loses its pin's entry, and `notes` loses the note with the rest in order. The cleanup callback is called exactly once, with the note. Rotation is on afterwards. The arcs, preview, scene, resources and edge spin end as that callback leaves them. |
| Annotations.Session.UnregisterNote | src/pins/noteManager.ts:125-142 | The registry half of `deleteNote`, with the invariant kept. |
| Annotations.Session.DetachNote | src/pins/noteManager.ts:125-136 | The singletons let go of the note, its objects leave the scene, its materials are disposed and its pin is unregistered. |
| Invariants.DeleteNoteKeeps | src/pins/noteManager.ts:125-142 | Removing a note from both registries and from the singletons keeps the note side of the invariant. |
| Annotations.Session.RunCascade | src/pins/noteManager.ts:139 | The cleanup callback is logged once. The no-op changes nothing; the arc cascade does what `deleteArcsForNote` does. |
| Annotations.CleanupCloses | src/lines/arcManager.ts:166-180 | After the cascade no remaining arc and no preview touches the deleted note. If every arc ended at a registered note before, every arc ends at a remaining note after. |
| Annotations.Session.SetDeleteArcCallback | src/pins/noteManager.ts:21-23 | The cleanup that `exitEditMode` passes on is the one given. |
| Annotations.Session.constructor | src/pins/noteManager.ts:10-19 | The initial state: nothing registered, no drag, edit or preview, rotation on, the default no-op cleanup. The invariant and closure hold. |
| Annotations.Session.EnterEditMode | src/pins/noteManager.ts:150-164 | A note already in edit mode is committed and never deleted, even if blank. Afterwards the new note is the only one in edit mode and rotation is off. |
| Annotations.Session.ExitEditMode | src/pins/noteManager.ts:166-186 | With no note in edit mode nothing changes. Otherwise edit mode ends and the label text loses one trailing line feed. If that text is blank and a scene is given, the note is deleted through the wired cleanup. If not, the text becomes the note's text and rotation is back on. |
| Annotations.Session.Commit | src/pins/noteManager.ts:171-185 | Edit mode ends. The label text less one trailing line feed becomes the note's text and label content, and rotation is on. |
| Annotations.Session.TypeText | src/pins/noteManager.ts:156-157 | Typing changes only the label content of the note in edit mode, not its committed text. |
| Text.StripTrailingNewline | src/pins/noteManager.ts:175 | A text ending in a line feed loses exactly that one; any other text is unchanged. |
| Text.StripOnlyOne | src/pins/noteManager.ts:175 | Only one line feed is stripped: from a text ending in two, one remains. |
| Text.TrimEmptyIffBlank | src/pins/noteManager.ts:178 | `trim()` is empty exactly when the text is all whitespace. |
| Annotations.Session.BeginDrag | src/pins/noteManager.ts:91-99 | A non-primary mouse button, or a press on the note in edit mode, changes nothing. Otherwise the note is dragged and rotation is off. |
| Annotations.Session.OnDragMove | src/pins/noteManager.ts:242-256 | Without a dragged note nothing changes. A sphere hit turns edge spin off and moves the note to the hit's direction, its objects placed there. A miss turns edge spin on and leaves the note unmoved. |
| Annotations.Session.OnDragEnd | src/pins/noteManager.ts:258-263 | Without a dragged note nothing changes. Otherwise the drag ends and rotation is on. |
| Annotations.Session.HitPin | src/pins/noteManager.ts:192-197 | The result is a registered note whose pin was hit. It is nothing exactly when nothing was hit or no registered note has that pin. |
| Annotations.Session.HitNoteDiv | src/pins/noteManager.ts:199-205 | The result is a registered note whose label is under the point. It is nothing exactly when no note's label is there. |
| Registry.FindByLabel | src/pins/noteManager.ts:204 | `notes.find` returns the first note with that label, and nothing exactly when no note has it. |
| Annotations.Session.HitPinAtScreen | src/pins/noteManager.ts:207-232 | The scan over `pinToNote` picks the rule's note, and that note is registered. |
| Annotations.PickAtScreen | src/pins/noteManager.ts:207-232 | Nothing exactly when no unskipped pin is strictly within the radius. Otherwise the note of the pin nearest on screen, where the earliest of equally near pins wins. |
| Picking.Nearest | src/pins/noteManager.ts:218-231 | A running minimum with strict `<`, starting at radius²: it takes a candidate within the bound, no farther than any other and strictly nearer than every earlier one; -1 exactly when none is within. |
| Picking.FirstNearestUnique | src/pins/noteManager.ts:226 | The strict-`<` rule picks at most one candidate. |
| Annotations.PinDists | src/pins/noteManager.ts:220-225 | One squared screen distance per `pinToNote` entry, in order; nothing for a pin beyond the far plane. |
| Geometry.Fade | src/pins/noteManager.ts:273 | `max(0, min(1, 6·dot))` is in [0, 1] and 0 for a back-facing note. It is above 0.1 exactly when 60·dot > 1. |
| Annotations.Shaded | src/pins/noteManager.ts:272-278 | A faded note differs only in opacity and interactivity. Its opacity is in [0, 1], and it takes pointer events exactly when 60·dot > 1. |
| Annotations.ShadeNotes | src/pins/noteManager.ts:271-279 | Every note of `notes` is faded and no other record changes. |
| Annotations.Session.UpdateNoteVisibility | src/pins/noteManager.ts:269-280 | Every registered note takes the fade for the camera direction, no other record changes, and the invariant is kept. |
| Invariants.RestyleKeeps | src/pins/noteManager.ts:271-279 | Changing only the opacity and interactivity of notes keeps the invariant. |
| Arcs.MakeArcGeo | src/lines/arcManager.ts:43-50 | A new buffer of 65 points. |
| Arcs.UpdateArc | src/lines/arcManager.ts:52-64 | The buffer holds the 65 samples of the arc between the two normals. |
| Arcs.NewArcLine | src/lines/arcManager.ts:336-337 | A new 65-point buffer holding the arc from the source to itself. |
| Arcs.MakeArcTube | src/lines/arcManager.ts:66-83 | The tube's control points are the 65 samples of the arc, in order. |
| Arcs.ArcEnds | src/lines/arcManager.ts:59-62 | The first sample is the normalised start lifted by 1.005, and the last is the normalised end lifted by 1.005. |
| Arcs.Toggle | src/lines/arcManager.ts:120-131 | An end has an arrow exactly when one is asked for. A kept arrow is the same one, a new one is made of the next two identities, and a dropped one allocates nothing. |
| Arcs.SetArrows | src/lines/arcManager.ts:114-145 | The arc has each arrow exactly when asked, and a still-wanted arrow is not reallocated. Every gained arrow is made of new objects, and nothing but the arrows changes. |
| Arcs.Reposition | src/lines/arcManager.ts:97-112 | Every present arrow sits at its end's normal lifted by 1.005. The arrows' objects and everything else are unchanged. |
| Annotations.Session.SetArcArrows | src/lines/arcManager.ts:114-147 | The arc record becomes the toggled, repositioned one and no other record changes. Dropped arrows leave the scene and their materials are disposed; gained ones join the scene and count as live. The invariant and closure are kept. |
| Invariants.ArcRecKeeps | src/lines/arcManager.ts:114-147 | Replacing an arc record by one with the same ends, and only new identities joining, keeps the invariant and closure. |
| Annotations.Session.DeleteArcConnection | src/lines/arcManager.ts:153-163 | The arc loses both arrows. Its tube and arrows leave the scene, and its geometry, material and arrow materials are disposed. It is removed from `arcConnections` and the other arcs keep their order. |
| Invariants.ArcDeleteKeeps | src/lines/arcManager.ts:153-163 | Deleting an arc keeps the invariant and closure. |
| Annotations.Session.DeleteArcsForNote | src/lines/arcManager.ts:166-180 | Exactly the arcs touching the note are deleted, and the others stay in order. The scene and live resources lose exactly those arcs' objects. A preview drawn from the note is cancelled (edge spin off); any other preview is untouched. |
| Annotations.Session.DeleteTouchingArcs | src/lines/arcManager.ts:167-171 | The backwards loop leaves `arcConnections` as the arcs not touching the note, in order. Only the touching arcs are stripped, and only their objects leave. |
| Arcs.ArcsWithout | src/lines/arcManager.ts:167-171 | Every remaining arc was in the list and does not touch the note. Every arc of the list not touching it remains. |
| Arcs.Stripped | src/lines/arcManager.ts:167-171 | Exactly the touching arcs of the list lose their arrows; every other record is unchanged. |
| Annotations.Session.CancelDrawingFrom | src/lines/arcManager.ts:173-179 | A preview from the note leaves the scene, its geometry and material are disposed, and drawing and edge spin are reset. Otherwise nothing changes. |
| Annotations.Session.HitArc | src/lines/arcManager.ts:186-213 | The first arc in list order with a sample (i = 0..64, not beyond the far plane) strictly within 8 px; nothing exactly when no arc has one. |
| Annotations.OrElse | src/lines/arcManager.ts:357 | The first lookup's note if it found one, else the second's. |
| Annotations.Session.ArcSource | src/lines/arcManager.ts:324-327 | A mouse uses `hitPin` and any other pointer the 30 px screen picker. A found source is a registered note. |
| Annotations.Session.PickSource | src/lines/arcManager.ts:324-327 | The source lookup, computed by the scan, equals `ArcSource`. |
| Annotations.Session.ArcTarget | src/lines/arcManager.ts:357 | The pin hit, else the label under the point. It is a registered note, and nothing exactly when both lookups find nothing. |
| Annotations.Session.OnArcPointerDown | src/lines/arcManager.ts:314-347 | It returns true exactly when the press is not ignored and a source is found; otherwise nothing changes. On true: a preview from the source at opacity 0.4 whose new buffer holds the source-to-itself arc; its material, geometry and line are the next three identities and the line joins the scene; `lastArcTarget` is the source's normal; edge spin and rotation are off. The invariant and closure are kept. |
| Annotations.Session.StartDrawing | src/lines/arcManager.ts:330-344 | Entering the drawing state, with its allocations. |
| Invariants.StartKeeps | src/lines/arcManager.ts:330-344 | Starting a preview from a known note with fresh identities keeps the invariant, and keeps closure when the source is registered. |
| Annotations.Session.OnArcPointerMove | src/lines/arcManager.ts:349-378 | Without a preview nothing changes. Over a note other than the source, the preview snaps to it at opacity 1. Otherwise a sphere hit sets the target to the hit's direction at opacity 0.4; a hit on the source itself lands here. In both cases the buffer holds the arc from the source to the new target and edge spin is off. Off the sphere, edge spin turns on and the target and buffer stay. |
| Annotations.Session.Steer | src/lines/arcManager.ts:358-372 | The preview follows a target with the given opacity, edge spin off; the invariant's arc side and closure are kept. |
| Annotations.Session.OnArcPointerUp | src/lines/arcManager.ts:380-420 | Without a preview, or with a non-primary mouse button, nothing changes. Otherwise the preview leaves the scene with its resources disposed. Over a note other than the source, exactly one arc is appended (from the source to that note, no arrows, a new tube over its samples); otherwise none. Drawing is reset, edge spin is off and rotation is on. The invariant and closure are kept. |
| Annotations.Session.Release | src/lines/arcManager.ts:389-419 | Both branches of the release, with the arc side of the invariant kept. |
| Annotations.Session.ConnectPreview | src/lines/arcManager.ts:392-410 | The connecting branch: the preview is swapped for a new arc as described. |
| Annotations.Session.DropPreview | src/lines/arcManager.ts:411-415 | The other branch: only the preview goes. |
| Invariants.ReleaseKeeps | src/lines/arcManager.ts:392-419 | A release keeps every arc between two different known notes, so no arc ever runs from a note to itself. It keeps closure when the ends are registered. |
| Invariants.ArcAddKeeps | src/lines/arcManager.ts:403-410 | Appending a new arc between two different notes with fresh objects keeps the invariant and closure. |
| Rebuilds.RebuildTubes | src/lines/arcManager.ts:438-454 | The loop over `arcConnections` computes the rebuild function. |
| Rebuilds.RebuildExactly | src/lines/arcManager.ts:438-446 | Exactly the selected arcs (touching the dragged note, or all of them) get a new geometry over the samples between their ends' current normals, with their arrows replaced. Every other arc record is untouched. |
| Rebuilds.RebuildDisposes | src/lines/arcManager.ts:438-454 | Afterwards the live resources are those before, less the selected arcs' old geometries, plus exactly the identities the rebuild allocated. |
| Rebuilds.RebuildFrame | src/lines/arcManager.ts:438-454 | A rebuild keeps the arc objects, their ends and their arrows. |
| Rebuilds.RebuildKeeps | src/lines/arcManager.ts:438-454 | A rebuild keeps the invariant's arc side, the allocation bound and closure. |
| Annotations.Session.RebuildArcs | src/lines/arcManager.ts:438-454 | `updateArcsForDrag(n)` for `Some(n)` and `rebuildAllArcs()` for `None`: the arc records, live resources and counter become the rebuild's result. The selected arcs' old geometries are disposed, and the only new live resources are the identities the rebuild allocated. The invariant and closure are kept. |

## Left out

- Floating point. Coordinates, dot products and the fade are exact reals, and the normalisation of a vector is a function the session is given. The camera projection is a function inside the `Camera` value; the model keeps the arithmetic around it (the pixel mapping and the far-plane skip). Rounding is not modelled.
- Orientation. `setFromUnitVectors` for pins, poles and arrow heads (with `tangentAtEnd`) is not modelled; positions are. `updateAllArcs`, with its edge-spin quaternion composition, and `latLonToVec3` are not modelled.
- The tube's Catmull-Rom curve and `TubeGeometry`. A tube stands for its 65 control points.
- The arc context menu (`src/lines/arcManager.ts:219-308`). It is DOM construction and pixel positioning.
- The touch double-tap listener, which needs `Date.now` and `requestAnimationFrame`, and the `keydown` and `focusout` listeners. The last two only call `exitEditMode`, which is modelled.
- DOM effects:
  - the `note--editing`, `note--dragging` and `note--arc-source` classes;
  - `contentEditable`, focus and the selection range;
  - `setPointerCapture` and `stopPropagation`;
  - the style strings of the fade. The fade is one `opacity` per note, standing for the label and both materials, and `pointer-events` is the flag `interactive`.
- Raycasts and `elementFromPoint`/`closest` are inputs to the handlers: the pin hit, the note label under the point, the sphere hit.
- `crypto.randomUUID` is an input of `createPin`.
- The `setEdgeSpin` callback is recorded in the ghost log `spinLog`.
- The getters `getDraggingNote`, `getArcEdgeSpin`, `getLastArcTarget` and `getDrawingArc` are plain field reads.
- Annotations.Session.ExitEditMode: in the blank-text branch its ensures states only that the note leaves `notes` and that the cleanup is called once with it. The rest of that branch is `deleteNote`, whose whole effect is stated by Annotations.Session.DeleteNote.
- Annotations.Session.DeleteNote: its ensures does not restate that closure is kept. That is stated by the lemma Annotations.CleanupCloses over the post-state `ArcCleanup` it ensures, and it holds only with the arc cascade; with the default no-op, arcs can be left pointing at the deleted note.
- Annotations.Session.OnArcPointerDown: a second press while a preview is in progress is not guarded against. The preview is replaced, and the old line stays in the scene with its resources live. The model keeps this behaviour.
