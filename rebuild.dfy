/**
 * The arc rebuilds of the animation loop: `updateArcsForDrag(n)` rebuilds
 * the tube of every arc touching the dragged note `n`, `rebuildAllArcs()`
 * the tube of every arc. A rebuild disposes the tube's geometry, attaches a
 * new one over the samples between the current normals of the arc's ends,
 * and places the arrow heads again.
 */
module Rebuilds {
  import opened Wrappers
  import opened Seqs
  import opened Geometry
  import opened Pins
  import opened Arcs
  import opened Invariants

  /** The rebuild of `updateArcsForDrag(n)` (for `Some(n)`) and of `rebuildAllArcs()` (for `None`) selects this arc. */
  predicate Selected(a: ArcRec, only: Option<Ref>) {
    only.None? || a.Touches(only.value)
  }

  /** What a rebuild works on: the arc records, the undisposed resources and the allocation counter. */
  datatype Tubes = Tubes(ad: map<Ref, ArcRec>, live: set<Ref>, next: nat)

  /**
   * Arc `a` over a new tube geometry `geo`, built over the samples between
   * the normals its ends have in `nd`, with its arrows placed at its ends.
   */
  function Retubed(normalize: Vec -> Vec, nd: map<Ref, NoteRec>, a: ArcRec, geo: Ref): ArcRec
    requires a.from in nd && a.to in nd
  {
    var f, t := nd[a.from].normal, nd[a.to].normal;
    Reposition(a.(geo := geo, path := ArcPoints(normalize, f, t)), f, t)
  }

  /** The loop body on arc `c`: a selected arc gets the next identity as its new geometry, the old one is disposed. */
  function RebuildOne(normalize: Vec -> Vec, nd: map<Ref, NoteRec>, only: Option<Ref>, c: Ref, s: Tubes): Tubes {
    if c in s.ad && Selected(s.ad[c], only) && s.ad[c].from in nd && s.ad[c].to in nd then
      Tubes(s.ad[c := Retubed(normalize, nd, s.ad[c], s.next)], s.live - {s.ad[c].geo} + {s.next}, s.next + 1)
    else
      s
  }

  /** The loop over the arcs `cs`, front to back. */
  function Rebuild(normalize: Vec -> Vec, nd: map<Ref, NoteRec>, only: Option<Ref>, cs: seq<Ref>, s: Tubes): Tubes
    decreases |cs|
  {
    if cs == [] then s
    else RebuildOne(normalize, nd, only, cs[|cs| - 1], Rebuild(normalize, nd, only, cs[..|cs| - 1], s))
  }

  /** Arc `b` has the ends and the arrow heads of arc `a`. */
  predicate SameFrame(a: ArcRec, b: ArcRec) {
    && a.from == b.from && a.to == b.to
    && ArrowMeshes(a) == ArrowMeshes(b) && ArrowMats(a) == ArrowMats(b)
  }

  /**
   * `r` comes from `s` by rebuilding: the same arc objects with the same
   * ends and arrows, a counter no lower, and every resource live in `r`
   * either live in `s` or allocated in between.
   */
  ghost predicate Grown(s: Tubes, r: Tubes) {
    && r.ad.Keys == s.ad.Keys && s.next <= r.next
    && (forall a | a in r.ad :: SameFrame(s.ad[a], r.ad[a]))
    && (forall o | o in r.live :: o in s.live || s.next <= o < r.next)
  }

  /** Growth is transitive. */
  lemma GrownTrans(s: Tubes, q: Tubes, r: Tubes)
    requires Grown(s, q) && Grown(q, r)
    ensures Grown(s, r)
  {
    forall a | a in r.ad ensures SameFrame(s.ad[a], r.ad[a]) {
      assert SameFrame(s.ad[a], q.ad[a]) && SameFrame(q.ad[a], r.ad[a]);
    }
  }

  /** One step of the loop grows its state. */
  lemma RebuildOneGrows(normalize: Vec -> Vec, nd: map<Ref, NoteRec>, only: Option<Ref>, c: Ref, s: Tubes)
    ensures Grown(s, RebuildOne(normalize, nd, only, c, s))
  {
    var r := RebuildOne(normalize, nd, only, c, s);
    forall a | a in r.ad ensures SameFrame(s.ad[a], r.ad[a]) {
    }
  }

  /**
   * The loop of `updateArcsForDrag` and `rebuildAllArcs` over the arcs `cs`,
   * on the state `s0`: each selected arc gets a tube over the samples
   * between its ends' normals, its arrows placed again, the next identity as
   * its new geometry, and its old geometry is disposed.
   */
  method RebuildTubes(normalize: Vec -> Vec, nd: map<Ref, NoteRec>, only: Option<Ref>, cs: seq<Ref>, s0: Tubes) returns (s: Tubes)
    requires (forall c | c in cs :: c in s0.ad) && EndsKnown(s0.ad, nd)
    ensures s == Rebuild(normalize, nd, only, cs, s0)
  {
    s := s0;
    for i := 0 to |cs|
      invariant s == Rebuild(normalize, nd, only, cs[..i], s0)
      invariant s.ad.Keys == s0.ad.Keys && EndsKnown(s.ad, nd)
    {
      var c := cs[i];
      var a := s.ad[c];
      if Selected(a, only) {
        var f, t := nd[a.from].normal, nd[a.to].normal;
        var path := MakeArcTube(normalize, f, t);
        s := Tubes(s.ad[c := Reposition(a.(geo := s.next, path := path), f, t)], s.live - {a.geo} + {s.next}, s.next + 1);
      }
      assert cs[..i + 1] == cs[..i] + [c];
    }
    assert cs[..|cs|] == cs;
  }

  /**
   * A rebuild keeps the set of arc objects, their ends and their arrows,
   * only counts upwards, and every resource live afterwards was live before
   * or is new.
   */
  lemma {:induction false} RebuildFrame(normalize: Vec -> Vec, nd: map<Ref, NoteRec>, only: Option<Ref>, cs: seq<Ref>, s: Tubes)
    ensures Grown(s, Rebuild(normalize, nd, only, cs, s))
    decreases |cs|
  {
    if cs != [] {
      var q := Rebuild(normalize, nd, only, cs[..|cs| - 1], s);
      RebuildFrame(normalize, nd, only, cs[..|cs| - 1], s);
      RebuildOneGrows(normalize, nd, only, cs[|cs| - 1], q);
      GrownTrans(s, q, Rebuild(normalize, nd, only, cs, s));
    }
  }

  /**
   * The rebuild touches exactly the selected arcs of `cs`: each of them gets
   * a new geometry, over the samples between its ends' current normals, with
   * its arrows placed there; every other arc record is left as it was.
   */
  lemma {:induction false} RebuildExactly(normalize: Vec -> Vec, nd: map<Ref, NoteRec>, only: Option<Ref>, cs: seq<Ref>, s: Tubes, c: Ref)
    requires Distinct(cs) && EndsKnown(s.ad, nd) && c in s.ad
    ensures var r := Rebuild(normalize, nd, only, cs, s);
      c in r.ad &&
      if c in cs && Selected(s.ad[c], only) then
        s.next <= r.ad[c].geo < r.next && r.ad[c] == Retubed(normalize, nd, s.ad[c], r.ad[c].geo)
      else
        r.ad[c] == s.ad[c]
    decreases |cs|
  {
    if cs != [] {
      var p := cs[..|cs| - 1];
      var x := cs[|cs| - 1];
      assert cs == p + [x];
      DistinctPrefix(p, x);
      RebuildFrame(normalize, nd, only, p, s);
      if c == x {
        assert c !in p;
      }
      RebuildExactly(normalize, nd, only, p, s, c);
    }
  }

  /** The front of a list without duplicates has none, and lacks the last element. */
  lemma DistinctPrefix(p: seq<Ref>, x: Ref)
    requires Distinct(p + [x])
    ensures Distinct(p) && x !in p
  {
    var cs := p + [x];
    forall i, j | 0 <= i < j < |p| ensures p[i] != p[j] {
      assert p[i] == cs[i] && p[j] == cs[j];
    }
    forall i | 0 <= i < |p| ensures p[i] != x {
      assert p[i] == cs[i] && x == cs[|p|];
    }
  }

  /** The geometries the rebuild of `cs` disposes: those of its selected arcs. */
  ghost function OldGeos(nd: map<Ref, NoteRec>, only: Option<Ref>, cs: seq<Ref>, ad: map<Ref, ArcRec>): set<Ref> {
    set c | c in cs && c in ad && Selected(ad[c], only) && ad[c].from in nd && ad[c].to in nd :: ad[c].geo
  }

  /** The identities from `lo` up to `hi`. */
  ghost function Span(lo: nat, hi: nat): (r: set<Ref>)
    ensures forall o :: o in r <==> lo <= o < hi
    decreases hi
  {
    if hi <= lo then {} else Span(lo, hi - 1) + {hi - 1}
  }

  /** The old geometries of `p + [x]` are those of `p` and, when `x` is selected, its own. */
  lemma OldGeosStep(nd: map<Ref, NoteRec>, only: Option<Ref>, p: seq<Ref>, x: Ref, ad: map<Ref, ArcRec>)
    ensures OldGeos(nd, only, p + [x], ad) ==
      OldGeos(nd, only, p, ad) + if x in ad && Selected(ad[x], only) && ad[x].from in nd && ad[x].to in nd then {ad[x].geo} else {}
  {
  }

  /** Disposing `g` and allocating `n` after disposing `o` and allocating the span `lo .. n`, for `g` outside the span. */
  lemma SwapStep(l: set<Ref>, o: set<Ref>, lo: nat, n: nat, g: Ref)
    requires !(lo <= g < n) && lo <= n
    ensures (l - o + Span(lo, n)) - {g} + {n} == l - (o + {g}) + Span(lo, n + 1)
  {
  }

  /**
   * The resources live after a rebuild are those live before, less the old
   * geometries of the selected arcs, plus the new geometries, which are the
   * identities the rebuild allocated.
   */
  lemma {:induction false} RebuildDisposes(normalize: Vec -> Vec, nd: map<Ref, NoteRec>, only: Option<Ref>, cs: seq<Ref>, s: Tubes)
    requires Distinct(cs) && EndsKnown(s.ad, nd)
    requires forall c | c in cs && c in s.ad :: s.ad[c].geo < s.next
    ensures var r := Rebuild(normalize, nd, only, cs, s);
      r.live == s.live - OldGeos(nd, only, cs, s.ad) + Span(s.next, r.next)
    decreases |cs|
  {
    if cs == [] {
      assert OldGeos(nd, only, cs, s.ad) == {};
    } else {
      var p := cs[..|cs| - 1];
      var x := cs[|cs| - 1];
      assert cs == p + [x];
      DistinctPrefix(p, x);
      var q := Rebuild(normalize, nd, only, p, s);
      RebuildDisposes(normalize, nd, only, p, s);
      RebuildFrame(normalize, nd, only, p, s);
      OldGeosStep(nd, only, p, x, s.ad);
      var r := Rebuild(normalize, nd, only, cs, s);
      assert r == RebuildOne(normalize, nd, only, x, q);
      if x in s.ad && Selected(s.ad[x], only) {
        RebuildExactly(normalize, nd, only, p, s, x);
        assert r.live == q.live - {s.ad[x].geo} + {q.next} && r.next == q.next + 1;
        SwapStep(s.live, OldGeos(nd, only, p, s.ad), s.next, q.next, s.ad[x].geo);
      } else {
        if x in s.ad {
          RebuildExactly(normalize, nd, only, p, s, x);
        }
        assert r == q;
      }
    }
  }

  /**
   * A rebuild of the registered arcs keeps the arc side of the invariant,
   * the allocation bound and the closure of the arcs.
   */
  lemma RebuildKeeps(normalize: Vec -> Vec, ns: seq<Ref>, nd: map<Ref, NoteRec>, only: Option<Ref>,
                     cs: seq<Ref>, d: Option<Drawing>, sc: set<Ref>, s: Tubes)
    requires ArcsInv(cs, s.ad, nd, d) && Below(s.next, sc, s.live, nd, s.ad)
    ensures var r := Rebuild(normalize, nd, only, cs, s);
      && ArcsInv(cs, r.ad, nd, d) && Below(r.next, sc, r.live, nd, r.ad)
      && (ClosedInv(ns, cs, s.ad, d) ==> ClosedInv(ns, cs, r.ad, d))
  {
    var r := Rebuild(normalize, nd, only, cs, s);
    RebuildFrame(normalize, nd, only, cs, s);
    assert forall a | a in r.ad :: SameFrame(s.ad[a], r.ad[a]);
    GrowKeeps(s.next, sc, s.live, nd, s.ad, r.next, sc, r.live);
    forall a | a in r.ad ensures ArrowsUnder(r.ad[a], r.next) {
      assert ArrowsUnder(s.ad[a], r.next);
    }
  }
}
