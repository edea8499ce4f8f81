/**
 * The note registry: the ordered `notes` list together with the `pinToNote`
 * Map from a pin mesh to its note, and the lookups the pickers do on them.
 */
module Registry {
  import opened Wrappers
  import opened Seqs
  import opened JsMap
  import opened Pins

  /** Every note of `ns` has a record. */
  ghost predicate Known(ns: seq<Ref>, nd: map<Ref, NoteRec>) {
    forall n | n in ns :: n in nd
  }

  /** The entries `pinToNote` holds for the notes `ns`: one `(pin, note)` per note, in the same order. */
  function PinEntries(ns: seq<Ref>, nd: map<Ref, NoteRec>): (m: seq<(Ref, Ref)>)
    requires Known(ns, nd)
    ensures |m| == |ns|
    ensures forall i :: 0 <= i < |ns| ==> m[i] == (nd[ns[i]].pin, ns[i])
  {
    seq(|ns|, i requires 0 <= i < |ns| => (nd[ns[i]].pin, ns[i]))
  }

  /** No two notes share a pin mesh. */
  ghost predicate DistinctPins(ns: seq<Ref>, nd: map<Ref, NoteRec>)
    requires Known(ns, nd)
  {
    forall i, j :: 0 <= i < j < |ns| ==> nd[ns[i]].pin != nd[ns[j]].pin
  }

  /** The pin mesh of note object `m`. */
  ghost function PinMesh(nd: map<Ref, NoteRec>, m: Ref): Ref
    requires m in nd
  {
    nd[m].pin
  }

  /** No two note objects share a pin mesh: every note allocates its own. */
  ghost predicate PinsApart(nd: map<Ref, NoteRec>) {
    forall m, n | m in nd && n in nd && m != n :: PinMesh(nd, m) != PinMesh(nd, n)
  }

  /** Notes listed once each, over note objects with their own pins, have distinct pins. */
  lemma ApartPins(ns: seq<Ref>, nd: map<Ref, NoteRec>)
    requires Known(ns, nd) && Distinct(ns) && PinsApart(nd)
    ensures DistinctPins(ns, nd)
  {
    forall i, j | 0 <= i < j < |ns| ensures nd[ns[i]].pin != nd[ns[j]].pin {
      assert ns[i] != ns[j] && PinMesh(nd, ns[i]) != PinMesh(nd, ns[j]);
    }
  }

  /** With distinct pins the entries form a Map. */
  lemma EntriesUnique(ns: seq<Ref>, nd: map<Ref, NoteRec>)
    requires Known(ns, nd) && DistinctPins(ns, nd)
    ensures UniqueKeys(PinEntries(ns, nd))
  {
    DistinctKeysUnique(PinEntries(ns, nd));
  }

  /** `pinToNote.get(pin)` on the registry finds the registered note with that pin, if any. */
  lemma PinLookup(ns: seq<Ref>, nd: map<Ref, NoteRec>, k: Ref)
    requires Known(ns, nd)
    ensures Get(PinEntries(ns, nd), k).Some? ==> Get(PinEntries(ns, nd), k).value in ns && nd[Get(PinEntries(ns, nd), k).value].pin == k
    ensures Get(PinEntries(ns, nd), k).None? <==> forall n | n in ns :: nd[n].pin != k
  {
    var m := PinEntries(ns, nd);
    HasKeyIndex(m, k);
    if HasKey(m, k) {
      GetIndex(m, k);
      var i :| 0 <= i < |m| && m[i] == (k, Get(m, k).value);
      assert ns[i] == Get(m, k).value;
    } else {
      forall n | n in ns ensures nd[n].pin != k {
        var i :| 0 <= i < |ns| && ns[i] == n;
        assert m[i].0 == nd[n].pin;
      }
    }
  }

  /** With distinct pins, `pinToNote.get` of a registered note's pin is that note. */
  lemma PinOfNote(ns: seq<Ref>, nd: map<Ref, NoteRec>, i: nat)
    requires Known(ns, nd) && DistinctPins(ns, nd) && i < |ns|
    ensures Get(PinEntries(ns, nd), nd[ns[i]].pin) == Some(ns[i])
  {
    EntriesUnique(ns, nd);
    GetEntry(PinEntries(ns, nd), i);
  }

  /** `pinToNote.set(note.pin, note)` followed by `notes.push(note)` keeps the two in step. */
  lemma AddRegistered(ns: seq<Ref>, nd: map<Ref, NoteRec>, n: Ref)
    requires Known(ns, nd) && n in nd
    requires forall m | m in ns :: nd[m].pin != nd[n].pin
    ensures Known(ns + [n], nd)
    ensures Set(PinEntries(ns, nd), nd[n].pin, n) == PinEntries(ns + [n], nd)
  {
    PinLookup(ns, nd, nd[n].pin);
    SetAbsent(PinEntries(ns, nd), nd[n].pin, n);
  }

  /**
   * `pinToNote.delete(note.pin)` and removing `note` from `notes` keep the two
   * in step, both for a registered note and for one whose pin is not registered.
   */
  lemma DeleteRegistered(ns: seq<Ref>, nd: map<Ref, NoteRec>, n: Ref)
    requires Known(ns, nd) && DistinctPins(ns, nd) && n in nd
    requires n in ns || forall m | m in ns :: nd[m].pin != nd[n].pin
    ensures Known(RemoveFirst(ns, n), nd)
    ensures Delete(PinEntries(ns, nd), nd[n].pin) == PinEntries(RemoveFirst(ns, n), nd)
  {
    var m := PinEntries(ns, nd);
    var i := IndexOf(ns, n);
    if i == -1 {
      PinLookup(ns, nd, nd[n].pin);
      DeleteAbsent(m, nd[n].pin);
    } else {
      DeleteRegisteredAt(ns, nd, i);
    }
  }

  /** Deleting the pin of the note at index `i` from the entries drops that entry. */
  lemma DeleteRegisteredAt(ns: seq<Ref>, nd: map<Ref, NoteRec>, i: nat)
    requires Known(ns, nd) && DistinctPins(ns, nd) && i < |ns|
    ensures Known(RemoveAt(ns, i), nd)
    ensures Delete(PinEntries(ns, nd), nd[ns[i]].pin) == PinEntries(RemoveAt(ns, i), nd)
  {
    var m := PinEntries(ns, nd);
    EntriesUnique(ns, nd);
    DeleteAt(m, i);
    assert m[i].0 == nd[ns[i]].pin;
    assert PinEntries(RemoveAt(ns, i), nd) == m[..i] + m[i + 1..];
  }

  /** Registering a new note and then deleting it restores both registries. */
  lemma AddThenDelete(ns: seq<Ref>, nd: map<Ref, NoteRec>, n: Ref)
    requires Known(ns, nd) && DistinctPins(ns, nd) && n in nd && n !in ns
    requires forall m | m in ns :: nd[m].pin != nd[n].pin
    ensures RemoveFirst(ns + [n], n) == ns
    ensures Delete(Set(PinEntries(ns, nd), nd[n].pin, n), nd[n].pin) == PinEntries(ns, nd)
  {
    AddRegistered(ns, nd, n);
    var ns' := ns + [n];
    assert IndexOf(ns', n) == |ns| by {
      assert ns'[|ns|] == n;
      assert ns'[..|ns|] == ns;
    }
    assert RemoveFirst(ns', n) == ns by {
      assert ns'[..|ns|] == ns;
    }
    AppendDistinctPins(ns, nd, n);
    DeleteRegistered(ns', nd, n);
  }

  /** Appending a note whose pin no listed note has keeps the pins distinct. */
  lemma AppendDistinctPins(ns: seq<Ref>, nd: map<Ref, NoteRec>, n: Ref)
    requires Known(ns, nd) && DistinctPins(ns, nd) && n in nd
    requires forall m | m in ns :: nd[m].pin != nd[n].pin
    ensures Known(ns + [n], nd) && DistinctPins(ns + [n], nd)
  {
    var ns' := ns + [n];
    forall i, j | 0 <= i < j < |ns'| ensures nd[ns'[i]].pin != nd[ns'[j]].pin {
      if j == |ns| { assert ns'[i] in ns; }
    }
  }

  /**
   * Deleting a note object that is not registered, whose pin therefore no
   * registered note has, leaves `notes` and `pinToNote` as they were.
   */
  lemma DeleteUnregistered(ns: seq<Ref>, nd: map<Ref, NoteRec>, n: Ref)
    requires Known(ns, nd) && PinsApart(nd) && n in nd && n !in ns
    ensures Without(ns, n) == ns
    ensures Delete(PinEntries(ns, nd), nd[n].pin) == PinEntries(ns, nd)
  {
    WithoutAbsent(ns, n);
    forall m | m in ns ensures nd[m].pin != nd[n].pin {
      assert PinMesh(nd, m) != PinMesh(nd, n);
    }
    PinLookup(ns, nd, nd[n].pin);
    HasKeyIndex(PinEntries(ns, nd), nd[n].pin);
    DeleteAbsent(PinEntries(ns, nd), nd[n].pin);
  }

  /** `ns[i]` is the first note whose label is `el`. */
  ghost predicate FirstWithLabel(ns: seq<Ref>, nd: map<Ref, NoteRec>, el: Ref, i: int)
    requires Known(ns, nd)
  {
    0 <= i < |ns| && nd[ns[i]].overlay == el && forall j :: 0 <= j < i ==> nd[ns[j]].overlay != el
  }

  /** `notes.find((n) => n.object.element === el)`: the first note with that label. */
  function FindByLabel(ns: seq<Ref>, nd: map<Ref, NoteRec>, el: Ref): (r: Option<Ref>)
    requires Known(ns, nd)
    ensures r.Some? ==> exists i :: FirstWithLabel(ns, nd, el, i) && ns[i] == r.value
    ensures r.None? <==> forall n | n in ns :: nd[n].overlay != el
  {
    if ns == [] then None
    else if nd[ns[0]].overlay == el then
      assert FirstWithLabel(ns, nd, el, 0);
      Some(ns[0])
    else
      var r := FindByLabel(ns[1..], nd, el);
      assert r.Some? ==> exists i :: FirstWithLabel(ns, nd, el, i) && ns[i] == r.value by {
        if r.Some? {
          var i :| FirstWithLabel(ns[1..], nd, el, i) && ns[1..][i] == r.value;
          assert ns[i + 1] == r.value;
          forall j | 0 <= j < i + 1 ensures nd[ns[j]].overlay != el {
            if j > 0 { assert ns[j] == ns[1..][j - 1]; }
          }
          assert FirstWithLabel(ns, nd, el, i + 1);
        }
      }
      assert ns == [ns[0]] + ns[1..];
      r
  }
}
