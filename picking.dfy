/**
 * The selection rules of the screen-space hit tests, over the sequence of
 * candidate distances in iteration order (none for a candidate that is skipped).
 */
module Picking {
  import opened Wrappers

  /** A candidate that is not skipped and lies strictly inside the bound. */
  predicate Within(d: Option<real>, bound: real) {
    d.Some? && d.value < bound
  }

  /**
   * `k` is the candidate a running-minimum scan with strict `<` settles on:
   * inside the bound, no farther than any other candidate, and strictly
   * nearer than every earlier one (so of equally near candidates the first wins).
   */
  ghost predicate FirstNearest(ds: seq<Option<real>>, bound: real, k: int) {
    && 0 <= k < |ds|
    && Within(ds[k], bound)
    && (forall j :: 0 <= j < |ds| && ds[j].Some? ==> ds[k].value <= ds[j].value)
    && (forall j :: 0 <= j < k && ds[j].Some? ==> ds[k].value < ds[j].value)
  }

  /** No candidate is inside the bound. */
  ghost predicate NoneWithin(ds: seq<Option<real>>, bound: real) {
    forall j :: 0 <= j < |ds| ==> !Within(ds[j], bound)
  }

  /** The rule picks at most one candidate. */
  lemma FirstNearestUnique(ds: seq<Option<real>>, bound: real, k1: int, k2: int)
    requires FirstNearest(ds, bound, k1) && FirstNearest(ds, bound, k2)
    ensures k1 == k2
  {
  }

  /**
   * The index a running-minimum scan settles on: it starts from the bound
   * with nothing picked and, candidate by candidate, takes one that is
   * strictly nearer than the best so far; -1 when it takes none.
   */
  function Nearest(ds: seq<Option<real>>, bound: real): (k: int)
    ensures -1 <= k < |ds|
    ensures k == -1 <==> NoneWithin(ds, bound)
    ensures k != -1 ==> FirstNearest(ds, bound, k)
  {
    if ds == [] then -1
    else
      var n := |ds| - 1;
      var k := Nearest(ds[..n], bound);
      var best := if k == -1 then bound else ds[k].value;
      assert forall j :: 0 <= j < n ==> ds[..n][j] == ds[j];
      if ds[n].Some? && ds[n].value < best then n else k
  }
}
