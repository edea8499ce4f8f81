/**
 * The conditions of the session invariant, stated over explicit values so
 * that each can be carried across a state change by a small lemma.
 */
module Invariants {
  import opened Wrappers
  import opened Seqs
  import opened JsMap
  import opened Geometry
  import opened Pins
  import opened Arcs
  import opened Registry

  /**
   * The note side of the session invariant: `notes` has no duplicates, no
   * two note objects share a pin, `pinToNote` holds exactly one entry per
   * note in the same order, every registered note sits where its normal
   * says, and the drag and edit singletons refer to registered notes.
   */
  ghost predicate NotesInv(ns: seq<Ref>, nd: map<Ref, NoteRec>, pins: seq<(Ref, Ref)>,
                           dragging: Option<Ref>, editing: Option<Ref>)
  {
    && Distinct(ns) && Known(ns, nd) && PinsApart(nd)
    && pins == PinEntries(ns, nd)
    && (forall n | n in ns :: nd[n].Placed())
    && (dragging.Some? ==> dragging.value in ns)
    && (editing.Some? ==> editing.value in ns)
  }

  /** Every arc record, registered or not, refers to two note objects. */
  ghost predicate EndsKnown(ad: map<Ref, ArcRec>, nd: map<Ref, NoteRec>) {
    forall a | a in ad :: ad[a].from in nd && ad[a].to in nd
  }

  /**
   * The arc side of the session invariant: `arcConnections` has no
   * duplicates, every registered arc joins two different notes, and the
   * preview starts at a note and has a buffer of 65 points.
   */
  ghost predicate ArcsInv(cs: seq<Ref>, ad: map<Ref, ArcRec>, nd: map<Ref, NoteRec>, d: Option<Drawing>) {
    && Distinct(cs) && EndsKnown(ad, nd)
    && (forall a | a in cs :: a in ad && ad[a].from != ad[a].to)
    && (d.Some? ==> d.value.source in nd && d.value.buf.Length == ArcSegments + 1)
  }

  /**
   * Every identity in use (scene children, undisposed resources, note and
   * arc objects, and the pins of the notes) is below the allocation counter,
   * so a new identity is one not seen before.
   */
  ghost predicate Below(next: nat, sc: set<Ref>, lv: set<Ref>, nd: map<Ref, NoteRec>, ad: map<Ref, ArcRec>) {
    && (forall o | o in sc :: o < next)
    && (forall o | o in lv :: o < next)
    && (forall n | n in nd :: n < next && nd[n].pin < next)
    && (forall a | a in ad :: a < next && ad[a].geo < next && ArrowsUnder(ad[a], next))
  }

  /** Every arc and the preview start and end at registered notes. */
  ghost predicate ClosedInv(ns: seq<Ref>, cs: seq<Ref>, ad: map<Ref, ArcRec>, d: Option<Drawing>) {
    && (forall a | a in cs && a in ad :: ad[a].from in ns && ad[a].to in ns)
    && (d.Some? ==> d.value.source in ns)
  }

  // --------------------------------------------------------------------
  // Carrying the conditions across state changes
  // --------------------------------------------------------------------

  /**
   * Registering a new placed note whose identities are all fresh, under its
   * pin in `pinToNote` and at the end of `notes`, appends its entry to
   * `pinToNote`, keeps the note side and the arc side of the invariant and
   * the allocation bound, and keeps the arcs closed.
   */
  lemma AddNoteKeeps(ns: seq<Ref>, nd: map<Ref, NoteRec>, pins: seq<(Ref, Ref)>, dr: Option<Ref>, ed: Option<Ref>,
                     cs: seq<Ref>, ad: map<Ref, ArcRec>, d: Option<Drawing>,
                     next: nat, sc: set<Ref>, lv: set<Ref>, n: Ref, r: NoteRec,
                     ns': seq<Ref>, nd': map<Ref, NoteRec>, pins': seq<(Ref, Ref)>,
                     next': nat, sc': set<Ref>, lv': set<Ref>)
    requires NotesInv(ns, nd, pins, dr, ed) && ArcsInv(cs, ad, nd, d) && Below(next, sc, lv, nd, ad)
    requires next <= n < next' && next <= r.pin < next' && next <= r.pole < next' && next <= r.overlay < next'
    requires next <= r.pinMat < next' && next <= r.poleMat < next'
    requires r.Placed()
    requires ns' == ns + [n] && nd' == nd[n := r] && pins' == Set(pins, r.pin, n)
    requires sc' == sc + {r.pin, r.pole, r.overlay} && lv' == lv + {r.pinMat, r.poleMat}
    ensures pins' == pins + [(r.pin, n)]
    ensures NotesInv(ns', nd', pins', dr, ed)
    ensures ArcsInv(cs, ad, nd', d)
    ensures Below(next', sc', lv', nd', ad)
    ensures ClosedInv(ns, cs, ad, d) ==> ClosedInv(ns', cs, ad, d)
  {
    assert forall m | m in nd :: nd[m].pin != r.pin;
    AddNoteNotes(ns, nd, pins, dr, ed, n, r);
    AddNoteBelow(next, sc, lv, nd, ad, n, r, next', sc', lv');
  }

  /** The allocation bound of `AddNoteKeeps`. */
  lemma AddNoteBelow(next: nat, sc: set<Ref>, lv: set<Ref>, nd: map<Ref, NoteRec>, ad: map<Ref, ArcRec>, n: Ref, r: NoteRec,
                     next': nat, sc': set<Ref>, lv': set<Ref>)
    requires Below(next, sc, lv, nd, ad) && next <= next'
    requires n < next' && r.pin < next' && r.pole < next' && r.overlay < next' && r.pinMat < next' && r.poleMat < next'
    requires sc' == sc + {r.pin, r.pole, r.overlay} && lv' == lv + {r.pinMat, r.poleMat}
    ensures Below(next', sc', lv', nd[n := r], ad)
  {
  }

  /** The note side of `AddNoteKeeps`, for a note and a pin that no known note uses. */
  lemma AddNoteNotes(ns: seq<Ref>, nd: map<Ref, NoteRec>, pins: seq<(Ref, Ref)>, dr: Option<Ref>, ed: Option<Ref>,
                     n: Ref, r: NoteRec)
    requires NotesInv(ns, nd, pins, dr, ed) && r.Placed()
    requires n !in nd && forall m | m in nd :: nd[m].pin != r.pin
    ensures Set(pins, r.pin, n) == pins + [(r.pin, n)]
    ensures NotesInv(ns + [n], nd[n := r], pins + [(r.pin, n)], dr, ed)
  {
    var ns', nd' := ns + [n], nd[n := r];
    PinLookup(ns, nd, r.pin);
    SetAbsent(pins, r.pin, n);
    assert n !in ns;
    assert Known(ns', nd');
    assert PinEntries(ns', nd') == pins + [(r.pin, n)];
    assert Distinct(ns') by {
      forall i, j | 0 <= i < j < |ns'| ensures ns'[i] != ns'[j] {
        if j == |ns| { assert ns'[i] in ns; } else { assert ns'[i] == ns[i] && ns'[j] == ns[j]; }
      }
    }
    assert PinsApart(nd') by {
      forall m, k | m in nd' && k in nd' && m != k ensures PinMesh(nd', m) != PinMesh(nd', k) {
        if m != n && k != n { assert PinMesh(nd, m) != PinMesh(nd, k); }
      }
    }
  }

  /** Objects leaving the scene and resources being disposed keep the allocation bound. */
  lemma ShrinkKeeps(next: nat, sc: set<Ref>, lv: set<Ref>, nd: map<Ref, NoteRec>, ad: map<Ref, ArcRec>, sc': set<Ref>, lv': set<Ref>)
    requires Below(next, sc, lv, nd, ad) && sc' <= sc && lv' <= lv
    ensures Below(next, sc', lv', nd, ad)
  {
  }

  /**
   * Replacing the record of note object `n` by one with the same pin, placed
   * if `n` is registered, keeps the note side, the arc side and the bound.
   */
  lemma NoteRecKeeps(ns: seq<Ref>, nd: map<Ref, NoteRec>, pins: seq<(Ref, Ref)>, dr: Option<Ref>, ed: Option<Ref>,
                     cs: seq<Ref>, ad: map<Ref, ArcRec>, d: Option<Drawing>,
                     next: nat, sc: set<Ref>, lv: set<Ref>, n: Ref, r: NoteRec)
    requires NotesInv(ns, nd, pins, dr, ed) && ArcsInv(cs, ad, nd, d) && Below(next, sc, lv, nd, ad)
    requires n in nd && r.pin == nd[n].pin && (n in ns ==> r.Placed())
    ensures NotesInv(ns, nd[n := r], pins, dr, ed)
    ensures ArcsInv(cs, ad, nd[n := r], d)
    ensures Below(next, sc, lv, nd[n := r], ad)
  {
    var nd' := nd[n := r];
    assert PinEntries(ns, nd') == PinEntries(ns, nd);
    assert PinsApart(nd') by {
      forall m, k | m in nd' && k in nd' && m != k ensures PinMesh(nd', m) != PinMesh(nd', k) {
        assert PinMesh(nd, m) != PinMesh(nd, k);
      }
    }
  }

  /**
   * Changing only the opacity and the interactivity of note records keeps
   * the note side, the arc side and the bound.
   */
  lemma RestyleKeeps(ns: seq<Ref>, nd: map<Ref, NoteRec>, pins: seq<(Ref, Ref)>, dr: Option<Ref>, ed: Option<Ref>,
                     cs: seq<Ref>, ad: map<Ref, ArcRec>, d: Option<Drawing>,
                     next: nat, sc: set<Ref>, lv: set<Ref>, nd': map<Ref, NoteRec>)
    requires NotesInv(ns, nd, pins, dr, ed) && ArcsInv(cs, ad, nd, d) && Below(next, sc, lv, nd, ad)
    requires nd'.Keys == nd.Keys
    requires forall n | n in nd :: nd'[n] == nd[n].(opacity := nd'[n].opacity, interactive := nd'[n].interactive)
    ensures NotesInv(ns, nd', pins, dr, ed)
    ensures ArcsInv(cs, ad, nd', d)
    ensures Below(next, sc, lv, nd', ad)
  {
    assert PinEntries(ns, nd') == PinEntries(ns, nd);
    assert PinsApart(nd') by {
      forall m, k | m in nd' && k in nd' && m != k ensures PinMesh(nd', m) != PinMesh(nd', k) {
        assert PinMesh(nd, m) != PinMesh(nd, k);
      }
    }
  }

  /**
   * Replacing the record of arc object `a` by one with the same ends, while
   * the scene and the live resources only gain identities below the new
   * counter, keeps the arc side, the bound and the closure.
   */
  lemma ArcRecKeeps(ns: seq<Ref>, cs: seq<Ref>, ad: map<Ref, ArcRec>, nd: map<Ref, NoteRec>, d: Option<Drawing>,
                    next: nat, sc: set<Ref>, lv: set<Ref>, a: Ref, r: ArcRec,
                    next': nat, sc': set<Ref>, lv': set<Ref>)
    requires ArcsInv(cs, ad, nd, d) && Below(next, sc, lv, nd, ad)
    requires a in ad && r.from == ad[a].from && r.to == ad[a].to && next <= next' && r.geo < next' && ArrowsUnder(r, next')
    requires forall o | o in sc' :: o in sc || o < next'
    requires forall o | o in lv' :: o in lv || o < next'
    ensures ArcsInv(cs, ad[a := r], nd, d)
    ensures Below(next', sc', lv', nd, ad[a := r])
    ensures ClosedInv(ns, cs, ad, d) ==> ClosedInv(ns, cs, ad[a := r], d)
  {
  }

  /**
   * Dropping arc `a` from `arcConnections` while objects leave the scene and
   * resources are disposed keeps the arc side, the bound and the closure,
   * and removes `a` alone, the other arcs keeping their order.
   */
  lemma ArcDropKeeps(ns: seq<Ref>, cs: seq<Ref>, ad: map<Ref, ArcRec>, nd: map<Ref, NoteRec>, d: Option<Drawing>,
                     next: nat, sc: set<Ref>, lv: set<Ref>, a: Ref, sc': set<Ref>, lv': set<Ref>)
    requires ArcsInv(cs, ad, nd, d) && Below(next, sc, lv, nd, ad) && sc' <= sc && lv' <= lv
    ensures RemoveFirst(cs, a) == Without(cs, a)
    ensures forall c :: c in RemoveFirst(cs, a) <==> c in cs && c != a
    ensures ArcsInv(RemoveFirst(cs, a), ad, nd, d)
    ensures Below(next, sc', lv', nd, ad)
    ensures ClosedInv(ns, cs, ad, d) ==> ClosedInv(ns, RemoveFirst(cs, a), ad, d)
  {
    RemoveFirstIsWithout(cs, a);
  }

  /**
   * Deleting arc `a`: `setArcArrows(a, false, false)` strips its arrows and
   * allocates nothing, and then dropping it from `arcConnections` while its
   * arrows and tube leave the scene and their resources are disposed keeps
   * the arc side, the bound and the closure.
   */
  lemma ArcDeleteKeeps(ns: seq<Ref>, cs: seq<Ref>, ad: map<Ref, ArcRec>, nd: map<Ref, NoteRec>, d: Option<Drawing>,
                       next: nat, sc: set<Ref>, lv: set<Ref>, a: Ref)
    requires ArcsInv(cs, ad, nd, d) && Below(next, sc, lv, nd, ad) && a in ad
    ensures SetArrows(ad[a], false, false, next) == (Bare(ad[a]), next)
    ensures Reposition(Bare(ad[a]), nd[ad[a].from].normal, nd[ad[a].to].normal) == Bare(ad[a])
    ensures RemoveFirst(cs, a) == Without(cs, a)
    ensures forall c :: c in RemoveFirst(cs, a) <==> c in cs && c != a
    ensures ArcsInv(RemoveFirst(cs, a), ad[a := Bare(ad[a])], nd, d)
    ensures Below(next, sc - ArrowMeshes(ad[a]) - {ad[a].mesh}, lv - ArrowMats(ad[a]) - {ad[a].geo, ad[a].mat}, nd, ad[a := Bare(ad[a])])
    ensures ClosedInv(ns, cs, ad, d) ==> ClosedInv(ns, RemoveFirst(cs, a), ad[a := Bare(ad[a])], d)
  {
    var r := Bare(ad[a]);
    var sc', lv' := sc - ArrowMeshes(ad[a]) - {ad[a].mesh}, lv - ArrowMats(ad[a]) - {ad[a].geo, ad[a].mat};
    ArcRecKeeps(ns, cs, ad, nd, d, next, sc, lv, a, r, next, sc', lv');
    ArcDropKeeps(ns, cs, ad[a := r], nd, d, next, sc', lv', a, sc', lv');
  }

  /**
   * Allocating objects (all below the new counter) while objects leave the
   * scene and resources are disposed keeps the allocation bound.
   */
  lemma GrowKeeps(next: nat, sc: set<Ref>, lv: set<Ref>, nd: map<Ref, NoteRec>, ad: map<Ref, ArcRec>,
                  next': nat, sc': set<Ref>, lv': set<Ref>)
    requires Below(next, sc, lv, nd, ad) && next <= next'
    requires forall o | o in sc' :: o in sc || next <= o < next'
    requires forall o | o in lv' :: o in lv || next <= o < next'
    ensures Below(next', sc', lv', nd, ad)
  {
    forall a | a in ad ensures ArrowsUnder(ad[a], next') {
      assert ArrowsUnder(ad[a], next);
    }
  }

  /**
   * Starting a preview `d'` from a known note, with a buffer of 65 points
   * and its line, material and geometry the next three identities, which
   * join the scene and the live resources: the arc side, the bound and the
   * closure (when the source is registered) are kept.
   */
  lemma StartKeeps(ns: seq<Ref>, cs: seq<Ref>, ad: map<Ref, ArcRec>, nd: map<Ref, NoteRec>, d: Option<Drawing>,
                   next: nat, sc: set<Ref>, lv: set<Ref>, d': Drawing)
    requires ArcsInv(cs, ad, nd, d) && Below(next, sc, lv, nd, ad)
    requires d'.source in nd && d'.buf.Length == ArcSegments + 1
    requires d'.lineMat == next && d'.lineGeo == next + 1 && d'.line == next + 2
    ensures ArcsInv(cs, ad, nd, Some(d'))
    ensures Below(next + 3, sc + {d'.line}, lv + {d'.lineMat, d'.lineGeo}, nd, ad)
    ensures ClosedInv(ns, cs, ad, d) && d'.source in ns ==> ClosedInv(ns, cs, ad, Some(d'))
  {
    GrowKeeps(next, sc, lv, nd, ad, next + 3, sc + {d'.line}, lv + {d'.lineMat, d'.lineGeo});
  }

  /**
   * Appending a new arc object `a` between two different known notes, with
   * no arrows and with objects all below the new counter, while the preview
   * is dropped: the arc side, the bound and the closure (when both ends are
   * registered) are kept.
   */
  lemma ArcAddKeeps(ns: seq<Ref>, cs: seq<Ref>, ad: map<Ref, ArcRec>, nd: map<Ref, NoteRec>, d: Option<Drawing>,
                    next: nat, sc: set<Ref>, lv: set<Ref>, a: Ref, r: ArcRec,
                    next': nat, sc': set<Ref>, lv': set<Ref>)
    requires ArcsInv(cs, ad, nd, d) && Below(next, sc, lv, nd, ad)
    requires next <= a < next' && r.geo < next' && r.from in nd && r.to in nd && r.from != r.to && r.arrowTo.None? && r.arrowFrom.None?
    requires forall o | o in sc' :: o in sc || next <= o < next'
    requires forall o | o in lv' :: o in lv || next <= o < next'
    ensures a !in ad && a !in cs
    ensures ArcsInv(cs + [a], ad[a := r], nd, None)
    ensures Below(next', sc', lv', nd, ad[a := r])
    ensures ClosedInv(ns, cs, ad, d) && r.from in ns && r.to in ns ==> ClosedInv(ns, cs + [a], ad[a := r], None)
  {
    GrowKeeps(next, sc, lv, nd, ad, next', sc', lv');
    assert a !in cs;
    assert Distinct(cs + [a]) by {
      var cs' := cs + [a];
      forall i, j | 0 <= i < j < |cs'| ensures cs'[i] != cs'[j] {
        if j == |cs| { assert cs'[i] in cs; } else { assert cs'[i] == cs[i] && cs'[j] == cs[j]; }
      }
    }
  }

  /**
   * What the release of preview `d` over target `t` does to the allocation
   * counter, the arcs (`cs`, read in `ad`), the scene and the live resources,
   * from the unprimed to the primed values, given the notes' records `nd`:
   * the preview line always leaves the scene and its geometry and material
   * are disposed; if `t` is a note other than the source, the next three
   * identities are the tube material, geometry and mesh of a new arc object,
   * the fourth, appended to the arcs, from the source to `t`, over the
   * samples of the arc between their normals and without arrows.
   */
  ghost predicate Released(normalize: Vec -> Vec, nd: map<Ref, NoteRec>, d: Drawing, t: Option<Ref>,
                           next: nat, cs: seq<Ref>, ad: map<Ref, ArcRec>, sc: set<Ref>, lv: set<Ref>,
                           next': nat, cs': seq<Ref>, ad': map<Ref, ArcRec>, sc': set<Ref>, lv': set<Ref>)
  {
    if t.Some? && t.value != d.source then
      && d.source in nd && t.value in nd
      && next + 3 !in ad && next' == next + 4 && cs' == cs + [next + 3]
      && ad' == ad[next + 3 := ArcRec(d.source, t.value, next + 2, next, next + 1,
                                      ArcPoints(normalize, nd[d.source].normal, nd[t.value].normal), None, None)]
      && sc' == sc - {d.line} + {next + 2} && lv' == lv - {d.lineGeo, d.lineMat} + {next, next + 1}
    else
      && next' == next && cs' == cs && ad' == ad
      && sc' == sc - {d.line} && lv' == lv - {d.lineGeo, d.lineMat}
  }

  /**
   * Releasing preview `d` over target `t` as `Released` describes keeps the
   * arc side and the allocation bound, and keeps the arcs closed when the
   * preview's source and the target are registered notes.
   */
  lemma ReleaseKeeps(normalize: Vec -> Vec, ns: seq<Ref>, nd: map<Ref, NoteRec>, d: Drawing, t: Option<Ref>,
                     next: nat, cs: seq<Ref>, ad: map<Ref, ArcRec>, sc: set<Ref>, lv: set<Ref>,
                     next': nat, cs': seq<Ref>, ad': map<Ref, ArcRec>, sc': set<Ref>, lv': set<Ref>)
    requires ArcsInv(cs, ad, nd, Some(d)) && Below(next, sc, lv, nd, ad) && (t.Some? ==> t.value in nd)
    requires Released(normalize, nd, d, t, next, cs, ad, sc, lv, next', cs', ad', sc', lv')
    ensures ArcsInv(cs', ad', nd, None) && Below(next', sc', lv', nd, ad')
    ensures ClosedInv(ns, cs, ad, Some(d)) && (t.Some? ==> t.value in ns) ==> ClosedInv(ns, cs', ad', None)
  {
    if t.Some? && t.value != d.source {
      var r := ad'[next + 3];
      ArcAddKeeps(ns, cs, ad, nd, Some(d), next, sc, lv, next + 3, r, next', sc', lv');
    }
  }

  /** The arrow stripping of one step of `deleteArcsForNote(n)`, which takes the arcs of `cs` from the back. */
  lemma StripStep(cs: seq<Ref>, ad: map<Ref, ArcRec>, n: Ref, i: nat)
    requires Distinct(cs) && (forall a | a in cs :: a in ad) && i < |cs|
    ensures Stripped(ad, cs[i + 1..], n)[cs[i]] == ad[cs[i]]
    ensures Stripped(ad, cs[i..], n) ==
      if ad[cs[i]].Touches(n) then Stripped(ad, cs[i + 1..], n)[cs[i] := Bare(ad[cs[i]])] else Stripped(ad, cs[i + 1..], n)
  {
    assert cs[i..] == [cs[i]] + cs[i + 1..];
    assert cs[i] !in cs[i + 1..] by {
      forall j | i + 1 <= j < |cs| ensures cs[j] != cs[i] { }
    }
  }

  /** The filters over `cs[i..]` taken apart at their first element. */
  lemma TouchingStep(cs: seq<Ref>, ad: map<Ref, ArcRec>, n: Ref, i: nat)
    requires (forall a | a in cs :: a in ad) && i < |cs|
    ensures ArcsWithout(cs[i..], ad, n) == (if ad[cs[i]].Touches(n) then [] else [cs[i]]) + ArcsWithout(cs[i + 1..], ad, n)
    ensures TouchingMeshes(cs[i..], ad, n) ==
      (if ad[cs[i]].Touches(n) then {ad[cs[i]].mesh} + ArrowMeshes(ad[cs[i]]) else {}) + TouchingMeshes(cs[i + 1..], ad, n)
    ensures TouchingResources(cs[i..], ad, n) ==
      (if ad[cs[i]].Touches(n) then {ad[cs[i]].geo, ad[cs[i]].mat} + ArrowMats(ad[cs[i]]) else {}) + TouchingResources(cs[i + 1..], ad, n)
  {
    assert cs[i..][1..] == cs[i + 1..];
  }

  /**
   * One step of `deleteArcsForNote(n)` at position `i`, in terms of the state
   * after the positions above `i` were handled: deleting `cs[i]` when it
   * touches `n`, and leaving it otherwise, gives the state after position `i`.
   */
  lemma DropStep(cs: seq<Ref>, ad: map<Ref, ArcRec>, sc0: set<Ref>, lv0: set<Ref>, n: Ref, i: nat,
                 arcs: seq<Ref>, sc: set<Ref>, lv: set<Ref>)
    requires Distinct(cs) && (forall a | a in cs :: a in ad) && i < |cs|
    requires arcs == cs[..i + 1] + ArcsWithout(cs[i + 1..], ad, n) && Distinct(arcs)
    requires sc == sc0 - TouchingMeshes(cs[i + 1..], ad, n) && lv == lv0 - TouchingResources(cs[i + 1..], ad, n)
    ensures i < |arcs| && arcs[i] == cs[i] && Stripped(ad, cs[i + 1..], n)[cs[i]] == ad[cs[i]]
    ensures var a := ad[cs[i]];
      if a.Touches(n) then
        && RemoveFirst(arcs, cs[i]) == cs[..i] + ArcsWithout(cs[i..], ad, n)
        && Stripped(ad, cs[i + 1..], n)[cs[i] := Bare(a)] == Stripped(ad, cs[i..], n)
        && sc - ArrowMeshes(a) - {a.mesh} == sc0 - TouchingMeshes(cs[i..], ad, n)
        && lv - ArrowMats(a) - {a.geo, a.mat} == lv0 - TouchingResources(cs[i..], ad, n)
      else
        && arcs == cs[..i] + ArcsWithout(cs[i..], ad, n)
        && Stripped(ad, cs[i + 1..], n) == Stripped(ad, cs[i..], n)
        && sc == sc0 - TouchingMeshes(cs[i..], ad, n)
        && lv == lv0 - TouchingResources(cs[i..], ad, n)
  {
    StripStep(cs, ad, n, i);
    TouchingStep(cs, ad, n, i);
    DropArcStep(cs, ad, n, i, arcs);
    var a := ad[cs[i]];
    if a.Touches(n) {
      Subtract(sc0, TouchingMeshes(cs[i + 1..], ad, n), ArrowMeshes(a), {a.mesh});
      Subtract(lv0, TouchingResources(cs[i + 1..], ad, n), ArrowMats(a), {a.geo, a.mat});
    }
  }

  /** Taking `t` out of a set and then `x` and `y` takes out their union. */
  lemma Subtract(s: set<Ref>, t: set<Ref>, x: set<Ref>, y: set<Ref>)
    ensures s - t - x - y == s - (y + x + t)
  {
  }

  /** The `arcConnections` part of `DropStep`. */
  lemma DropArcStep(cs: seq<Ref>, ad: map<Ref, ArcRec>, n: Ref, i: nat, arcs: seq<Ref>)
    requires (forall a | a in cs :: a in ad) && i < |cs|
    requires arcs == cs[..i + 1] + ArcsWithout(cs[i + 1..], ad, n) && Distinct(arcs)
    requires ArcsWithout(cs[i..], ad, n) == (if ad[cs[i]].Touches(n) then [] else [cs[i]]) + ArcsWithout(cs[i + 1..], ad, n)
    ensures i < |arcs| && arcs[i] == cs[i]
    ensures ad[cs[i]].Touches(n) ==> RemoveFirst(arcs, cs[i]) == cs[..i] + ArcsWithout(cs[i..], ad, n)
    ensures !ad[cs[i]].Touches(n) ==> arcs == cs[..i] + ArcsWithout(cs[i..], ad, n)
  {
    var w := ArcsWithout(cs[i + 1..], ad, n);
    SplitAt(cs, w, i);
    if ad[cs[i]].Touches(n) {
      IndexOfDistinct(arcs, i);
      assert [] + w == w;
    }
  }

  /**
   * Once the arcs touching note `n` are deleted and a preview drawn from it is
   * cancelled, every arc and the preview keep to the registered notes other
   * than `n`.
   */
  lemma CascadeCloses(ns: seq<Ref>, cs: seq<Ref>, ad: map<Ref, ArcRec>, d: Option<Drawing>, n: Ref)
    requires ClosedInv(ns, cs, ad, d) && forall a | a in cs :: a in ad
    ensures ClosedInv(Without(ns, n), ArcsWithout(cs, ad, n), Stripped(ad, cs, n), if DrawsFrom(d, n) then None else d)
  {
    WithoutMembers(ns, n);
  }

  /**
   * Unregistering note `n` (its pin's entry deleted, the note removed from
   * `notes`, the singletons cleared where they held it) keeps the note side
   * of the invariant.
   */
  lemma DeleteNoteKeeps(ns: seq<Ref>, nd: map<Ref, NoteRec>, pins: seq<(Ref, Ref)>, dr: Option<Ref>, ed: Option<Ref>,
                        n: Ref, dr': Option<Ref>, ed': Option<Ref>)
    requires NotesInv(ns, nd, pins, dr, ed) && n in nd
    requires dr' == (if dr == Some(n) then None else dr) && ed' == (if ed == Some(n) then None else ed)
    ensures RemoveFirst(ns, n) == Without(ns, n)
    ensures forall m :: m in RemoveFirst(ns, n) <==> m in ns && m != n
    ensures Delete(pins, nd[n].pin) == PinEntries(RemoveFirst(ns, n), nd)
    ensures NotesInv(RemoveFirst(ns, n), nd, Delete(pins, nd[n].pin), dr', ed')
  {
    ApartPins(ns, nd);
    if n !in ns {
      forall m | m in ns ensures nd[m].pin != nd[n].pin {
        assert PinMesh(nd, m) != PinMesh(nd, n);
      }
    }
    RemoveFirstIsWithout(ns, n);
    DeleteRegistered(ns, nd, n);
  }
}
