/**
 * `diff`: the permutation-aware difference of two level vectors, one per
 * numbering of the same level. The two numberings are walked in lockstep,
 * cell by cell and slot by slot, and u[idx1] - v[idx2] is stored at idx1.
 */
module LevelDiff {
  import opened CellTables
  import opened Numberings

  /** Both tables list the same cells, with the same number of slots each. */
  predicate Lockstep(idx1: Table, idx2: Table) {
    |idx1| == |idx2| && forall c :: 0 <= c < |idx1| ==> |idx1[c]| == |idx2[c]|
  }

  /** Lockstep tables whose indices address u (first) and v (second). */
  predicate DiffDomain(idx1: Table, idx2: Table, u: Vec, v: Vec) {
    Lockstep(idx1, idx2) && Bounded(idx1, |u|) && Bounded(idx2, |v|)
  }

  /** Slot i of one cell contributes u[slots1[i]] - v[slots2[i]]. */
  function SlotDiffs(slots1: seq<nat>, slots2: seq<nat>, u: Vec, v: Vec): (vals: seq<int>)
    requires |slots1| == |slots2| && SlotsBelow(slots1, |u|) && SlotsBelow(slots2, |v|)
    ensures |vals| == |slots1|
    ensures forall i :: 0 <= i < |slots1| ==> vals[i] == u[slots1[i]] - v[slots2[i]]
  {
    seq(|slots1|, i requires 0 <= i < |slots1| => u[slots1[i]] - v[slots2[i]])
  }

  /** Slot (c, i) contributes u[idx1[c][i]] - v[idx2[c][i]]. */
  function DiffValues(idx1: Table, idx2: Table, u: Vec, v: Vec): (vals: Values)
    requires DiffDomain(idx1, idx2, u, v)
    ensures Shaped(idx1, vals)
    ensures forall c :: 0 <= c < |idx1| ==> vals[c] == SlotDiffs(idx1[c], idx2[c], u, v)
    ensures forall c, i :: 0 <= c < |idx1| && 0 <= i < |idx1[c]| ==>
              vals[c][i] == u[idx1[c][i]] - v[idx2[c][i]]
  {
    seq(|idx1|, c requires 0 <= c < |idx1| => SlotDiffs(idx1[c], idx2[c], u, v))
  }

  /** The difference as a fold: a zero vector of u's length, then the
      contributions of every slot in traversal order. */
  function DiffFold(idx1: Table, idx2: Table, u: Vec, v: Vec): (d: Vec)
    requires DiffDomain(idx1, idx2, u, v)
    ensures |d| == |u|
  {
    Scatter(idx1, DiffValues(idx1, idx2, u, v), Zeros(|u|))
  }

  /** The two vectors hold the same value at every pair of corresponding slots. */
  predicate Agree(idx1: Table, idx2: Table, u: Vec, v: Vec)
    requires DiffDomain(idx1, idx2, u, v)
  {
    forall c, i :: 0 <= c < |idx1| && 0 <= i < |idx1[c]| ==> u[idx1[c][i]] == v[idx2[c][i]]
  }

  /**
   * The slot correspondence is a function of the first numbering's index:
   * two slots that share an index under the first numbering share one under
   * the second. Two numberings of the same degrees of freedom satisfy this.
   */
  predicate Corresponds(idx1: Table, idx2: Table)
    requires Lockstep(idx1, idx2)
  {
    forall c, i, c', i' ::
      && 0 <= c < |idx1| && 0 <= i < |idx1[c]|
      && 0 <= c' < |idx1| && 0 <= i' < |idx1[c']|
      && idx1[c][i] == idx1[c'][i']
      ==> idx2[c][i] == idx2[c'][i']
  }

  /**
   * `diff`: the result has u's length, is zero wherever the first numbering
   * lists no slot of the level, and elsewhere holds u[j] - v[k] for the LAST
   * slot, in traversal order, that lists j (k its index in the second table).
   */
  method Diff(dof1: Numbering, dof2: Numbering, u: Vec, v: Vec, level: nat) returns (d: Vec)
    requires level < |dof1.levelCells| && level < |dof2.levelCells|
    requires |dof1.levelCells[level]| == |dof2.levelCells[level]|
    requires Uniform(dof1.levelCells[level], dof1.dofsPerCell)
    requires Uniform(dof2.levelCells[level], dof1.dofsPerCell)
    requires Bounded(dof1.levelCells[level], |u|) && Bounded(dof2.levelCells[level], |v|)
    ensures DiffDomain(dof1.levelCells[level], dof2.levelCells[level], u, v)
    ensures d == DiffFold(dof1.levelCells[level], dof2.levelCells[level], u, v)
    ensures |d| == |u|
    ensures forall j :: 0 <= j < |u| && !Referenced(dof1.levelCells[level], j) ==> d[j] == 0
    ensures forall j: nat, c: nat, i: nat :: IsLastWrite(dof1.levelCells[level], j, c, i) ==>
              d[j] == u[j] - v[dof2.levelCells[level][c][i]]
  {
    var cells1 := dof1.levelCells[level];
    var cells2 := dof2.levelCells[level];
    ghost var vals := DiffValues(cells1, cells2, u, v);
    var zero := Zeros(|u|);
    d := zero;
    var c := 0;
    while c < |cells1|
      invariant 0 <= c <= |cells1|
      invariant d == ScatterCells(cells1, vals, zero, c)
    {
      d := DiffCell(cells1[c], cells2[c], u, v, d);
      c := c + 1;
    }
    DiffFoldSpec(cells1, cells2, u, v);
  }

  /** The fold is zero at unlisted indices and holds the contribution of
      the last write elsewhere. */
  lemma DiffFoldSpec(idx1: Table, idx2: Table, u: Vec, v: Vec)
    requires DiffDomain(idx1, idx2, u, v)
    ensures var d := DiffFold(idx1, idx2, u, v);
      && |d| == |u|
      && (forall j :: 0 <= j < |u| && !Referenced(idx1, j) ==> d[j] == 0)
      && (forall j: nat, c: nat, i: nat :: IsLastWrite(idx1, j, c, i) ==> d[j] == u[j] - v[idx2[c][i]])
  {
    ScatterSpec(idx1, DiffValues(idx1, idx2, u, v), Zeros(|u|));
  }

  /** The slot loop of `diff` for one cell: slot i stores
      u[slots1[i]] - v[slots2[i]] at slots1[i], in slot order. */
  method DiffCell(slots1: seq<nat>, slots2: seq<nat>, u: Vec, v: Vec, d0: Vec) returns (d: Vec)
    requires |slots1| == |slots2| && SlotsBelow(slots1, |u|) && SlotsBelow(slots2, |v|)
    requires |d0| == |u|
    ensures d == ScatterCell(slots1, SlotDiffs(slots1, slots2, u, v), d0, |slots1|)
  {
    ghost var vals := SlotDiffs(slots1, slots2, u, v);
    d := d0;
    var i := 0;
    while i < |slots1|
      invariant 0 <= i <= |slots1|
      invariant d == ScatterCell(slots1, vals, d0, i)
    {
      d := d[slots1[i] := u[slots1[i]] - v[slots2[i]]];
      i := i + 1;
    }
  }

  /** Under a functional correspondence, every slot listing j, not only the
      last one, determines the difference at j. */
  lemma DiffAtAnyWrite(idx1: Table, idx2: Table, u: Vec, v: Vec, c: nat, i: nat)
    requires DiffDomain(idx1, idx2, u, v) && Corresponds(idx1, idx2)
    requires c < |idx1| && i < |idx1[c]|
    ensures DiffFold(idx1, idx2, u, v)[idx1[c][i]] == u[idx1[c][i]] - v[idx2[c][i]]
  {
    var j := idx1[c][i];
    ScatterAgreeing(idx1, DiffValues(idx1, idx2, u, v), Zeros(|u|), j, u[j] - v[idx2[c][i]]);
  }

  /** Agreement at every corresponding slot makes the difference vanish,
      whatever the order of the writes. */
  lemma DiffZeroWhenAgree(idx1: Table, idx2: Table, u: Vec, v: Vec)
    requires DiffDomain(idx1, idx2, u, v) && Agree(idx1, idx2, u, v)
    ensures IsZero(DiffFold(idx1, idx2, u, v))
  {
    forall j | 0 <= j < |u|
      ensures DiffFold(idx1, idx2, u, v)[j] == 0
    {
      ScatterAt(idx1, DiffValues(idx1, idx2, u, v), Zeros(|u|), |idx1|, j);
    }
  }

  /**
   * The renumbering-invariance check: for two numberings of the same
   * degrees of freedom, the difference is the zero vector exactly when the
   * vectors agree at every pair of corresponding slots.
   */
  lemma DiffZeroIffAgree(idx1: Table, idx2: Table, u: Vec, v: Vec)
    requires DiffDomain(idx1, idx2, u, v) && Corresponds(idx1, idx2)
    ensures IsZero(DiffFold(idx1, idx2, u, v)) <==> Agree(idx1, idx2, u, v)
  {
    if Agree(idx1, idx2, u, v) {
      DiffZeroWhenAgree(idx1, idx2, u, v);
    }
    if IsZero(DiffFold(idx1, idx2, u, v)) {
      forall c, i | 0 <= c < |idx1| && 0 <= i < |idx1[c]|
        ensures u[idx1[c][i]] == v[idx2[c][i]]
      {
        DiffAtAnyWrite(idx1, idx2, u, v, c, i);
      }
    }
  }

  /** The cells of a table visited in another order; `order` may repeat cells. */
  function Reorder(t: Table, order: seq<nat>): (r: Table)
    requires forall k :: 0 <= k < |order| ==> order[k] < |t|
    ensures |r| == |order|
    ensures forall k :: 0 <= k < |order| ==> r[k] == t[order[k]]
  {
    seq(|order|, k requires 0 <= k < |order| => t[order[k]])
  }

  /** `order` visits every cell of a table of n cells at least once. */
  predicate Covers(order: seq<nat>, n: nat) {
    && (forall k :: 0 <= k < |order| ==> order[k] < n)
    && forall c: nat :: c < n ==> c in order
  }

  /** Reordering keeps the lockstep pairing, the bounds and the correspondence. */
  lemma ReorderDomain(idx1: Table, idx2: Table, u: Vec, v: Vec, order: seq<nat>)
    requires DiffDomain(idx1, idx2, u, v) && Corresponds(idx1, idx2)
    requires Covers(order, |idx1|)
    ensures DiffDomain(Reorder(idx1, order), Reorder(idx2, order), u, v)
    ensures Corresponds(Reorder(idx1, order), Reorder(idx2, order))
  {
  }

  /** A covering reorder lists exactly the indices the table lists. */
  lemma ReorderReferenced(idx: Table, order: seq<nat>, j: nat)
    requires Covers(order, |idx|)
    ensures Referenced(Reorder(idx, order), j) <==> Referenced(idx, j)
  {
    var r := Reorder(idx, order);
    if Referenced(idx, j) {
      var c, i :| 0 <= c < |idx| && 0 <= i < |idx[c]| && idx[c][i] == j;
      assert c in order;
      var k :| 0 <= k < |order| && order[k] == c;
      assert r[k][i] == j;
    }
    if Referenced(r, j) {
      var k, i :| 0 <= k < |r| && 0 <= i < |r[k]| && r[k][i] == j;
      assert idx[order[k]][i] == j;
    }
  }

  /** Indices the first numbering does not list stay zero. */
  lemma DiffUnreferenced(idx1: Table, idx2: Table, u: Vec, v: Vec, j: nat)
    requires DiffDomain(idx1, idx2, u, v) && j < |u| && !Referenced(idx1, j)
    ensures DiffFold(idx1, idx2, u, v)[j] == 0
  {
    ScatterAt(idx1, DiffValues(idx1, idx2, u, v), Zeros(|u|), |idx1|, j);
  }

  /** Slot i of cell c, reached as position k of the reorder, gives the
      same difference in both orders. */
  lemma DiffReorderWrite(idx1: Table, idx2: Table, u: Vec, v: Vec, order: seq<nat>, c: nat, i: nat, k: nat)
    requires DiffDomain(idx1, idx2, u, v) && Corresponds(idx1, idx2)
    requires Covers(order, |idx1|) && k < |order| && order[k] == c && i < |idx1[c]|
    requires DiffDomain(Reorder(idx1, order), Reorder(idx2, order), u, v)
    requires Corresponds(Reorder(idx1, order), Reorder(idx2, order))
    ensures DiffFold(Reorder(idx1, order), Reorder(idx2, order), u, v)[idx1[c][i]] ==
              DiffFold(idx1, idx2, u, v)[idx1[c][i]]
  {
    var r1 := Reorder(idx1, order);
    var r2 := Reorder(idx2, order);
    assert r1[k][i] == idx1[c][i] && r2[k][i] == idx2[c][i];
    DiffAtAnyWrite(idx1, idx2, u, v, c, i);
    DiffAtAnyWrite(r1, r2, u, v, k, i);
  }

  /** Pointwise form of the order independence below. */
  lemma DiffReorderAt(idx1: Table, idx2: Table, u: Vec, v: Vec, order: seq<nat>, j: nat)
    requires DiffDomain(idx1, idx2, u, v) && Corresponds(idx1, idx2)
    requires Covers(order, |idx1|) && j < |u|
    requires DiffDomain(Reorder(idx1, order), Reorder(idx2, order), u, v)
    requires Corresponds(Reorder(idx1, order), Reorder(idx2, order))
    ensures DiffFold(Reorder(idx1, order), Reorder(idx2, order), u, v)[j] == DiffFold(idx1, idx2, u, v)[j]
  {
    ReorderReferenced(idx1, order, j);
    if Referenced(idx1, j) {
      var c, i :| 0 <= c < |idx1| && 0 <= i < |idx1[c]| && idx1[c][i] == j;
      assert c in order;
      var k :| 0 <= k < |order| && order[k] == c;
      DiffReorderWrite(idx1, idx2, u, v, order, c, i, k);
    } else {
      DiffUnreferenced(idx1, idx2, u, v, j);
      DiffUnreferenced(Reorder(idx1, order), Reorder(idx2, order), u, v, j);
    }
  }

  /**
   * Traversal-order independence: under a functional correspondence,
   * visiting the cells in any order that reaches each of them yields the
   * same difference vector.
   */
  lemma DiffOrderIndependent(idx1: Table, idx2: Table, u: Vec, v: Vec, order: seq<nat>)
    requires DiffDomain(idx1, idx2, u, v) && Corresponds(idx1, idx2)
    requires Covers(order, |idx1|)
    ensures DiffDomain(Reorder(idx1, order), Reorder(idx2, order), u, v)
    ensures DiffFold(Reorder(idx1, order), Reorder(idx2, order), u, v) == DiffFold(idx1, idx2, u, v)
  {
    ReorderDomain(idx1, idx2, u, v, order);
    var a := DiffFold(Reorder(idx1, order), Reorder(idx2, order), u, v);
    var b := DiffFold(idx1, idx2, u, v);
    forall j | 0 <= j < |u|
      ensures a[j] == b[j]
    {
      DiffReorderAt(idx1, idx2, u, v, order, j);
    }
  }
}
