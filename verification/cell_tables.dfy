/**
 * Cell tables and the scatter they drive.
 *
 * A numbering hands out, for every cell of a level (or of the active mesh),
 * the ordered list of global degree-of-freedom indices of its local slots.
 * Every routine of the test that writes into a vector does the same thing:
 * it visits the cells in order and, inside a cell, the slots in order, and
 * stores one value at the slot's global index. An index shared by several
 * cells is therefore written several times and the LAST write wins.
 * `Scatter` is that fold; `LastWrite` is an independent, pointwise
 * description of which write survives, and `ScatterAt` connects the two.
 */
module CellTables {

  /** A dense numeric vector. The test only ever stores small integers. */
  type Vec = seq<int>

  /** cell -> local slot -> global index */
  type Table = seq<seq<nat>>

  /** cell -> local slot -> value stored at that slot's global index */
  type Values = seq<seq<int>>

  datatype Option<T> = None | Some(value: T)

  /** A position in traversal order: a cell and one of its local slots. */
  datatype Pos = Pos(cell: nat, slot: nat)

  /** The all-zero vector of length n (what `Vector::reinit` leaves behind). */
  function Zeros(n: nat): (r: Vec)
    ensures |r| == n
    ensures forall j :: 0 <= j < n ==> r[j] == 0
  {
    seq(n, _ => 0)
  }

  predicate IsZero(w: Vec) {
    forall j :: 0 <= j < |w| ==> w[j] == 0
  }

  /** Every cell lists exactly k slots (k is the element's dofs_per_cell). */
  predicate Uniform(idx: Table, k: nat) {
    forall c :: 0 <= c < |idx| ==> |idx[c]| == k
  }

  /** The value table has the shape of the index table. */
  predicate Shaped(idx: Table, vals: Values) {
    |idx| == |vals| && forall c :: 0 <= c < |idx| ==> |idx[c]| == |vals[c]|
  }

  predicate SlotsBelow(slots: seq<nat>, n: nat) {
    forall i :: 0 <= i < |slots| ==> slots[i] < n
  }

  /** Every index of the table addresses an entry of a vector of length n. */
  predicate Bounded(idx: Table, n: nat) {
    forall c :: 0 <= c < |idx| ==> SlotsBelow(idx[c], n)
  }

  /** Some cell lists global index j in some slot. */
  predicate Referenced(idx: Table, j: nat) {
    exists c, i :: 0 <= c < |idx| && 0 <= i < |idx[c]| && idx[c][i] == j
  }

  /** Among the first n cells, (c, i) writes j and no later position in
      traversal order writes j. */
  predicate IsLastWriteIn(idx: Table, n: nat, j: nat, c: nat, i: nat)
    requires n <= |idx|
  {
    && c < n && i < |idx[c]| && idx[c][i] == j
    && forall c', i' :: 0 <= c' < n && 0 <= i' < |idx[c']| && idx[c'][i'] == j ==>
         c' < c || (c' == c && i' <= i)
  }

  /** (c, i) is the last position of the whole table that writes j. */
  predicate IsLastWrite(idx: Table, j: nat, c: nat, i: nat) {
    IsLastWriteIn(idx, |idx|, j, c, i)
  }

  /** The last of the first n slots of one cell that lists j, if any. */
  function LastSlot(slots: seq<nat>, j: nat, n: nat): (r: Option<nat>)
    requires n <= |slots|
    ensures r.Some? ==> r.value < n && slots[r.value] == j
    ensures r.Some? ==> forall i :: r.value < i < n ==> slots[i] != j
    ensures r.None? ==> forall i :: 0 <= i < n ==> slots[i] != j
    decreases n
  {
    if n == 0 then None
    else if slots[n - 1] == j then Some(n - 1)
    else LastSlot(slots, j, n - 1)
  }

  /** The last position among the first n cells whose slot lists j, if any. */
  function LastWrite(idx: Table, j: nat, n: nat): (r: Option<Pos>)
    requires n <= |idx|
    ensures r.None? ==> forall c, i :: 0 <= c < n && 0 <= i < |idx[c]| ==> idx[c][i] != j
    ensures r.Some? ==> IsLastWriteIn(idx, n, j, r.value.cell, r.value.slot)
    decreases n
  {
    if n == 0 then None
    else match LastSlot(idx[n - 1], j, |idx[n - 1]|)
      case Some(i) => Some(Pos(n - 1, i))
      case None => LastWrite(idx, j, n - 1)
  }

  /** Writes vals[i] at slots[i] for i = 0, 1, ..., n - 1 in turn. */
  function ScatterCell(slots: seq<nat>, vals: seq<int>, w: Vec, n: nat): (r: Vec)
    requires |slots| == |vals| && SlotsBelow(slots, |w|) && n <= |slots|
    ensures |r| == |w|
    decreases n
  {
    if n == 0 then w
    else ScatterCell(slots, vals, w, n - 1)[slots[n - 1] := vals[n - 1]]
  }

  /** Writes vals[c][i] at idx[c][i] for the first n cells, cell after cell
      and slot after slot. */
  function ScatterCells(idx: Table, vals: Values, w: Vec, n: nat): (r: Vec)
    requires Shaped(idx, vals) && Bounded(idx, |w|) && n <= |idx|
    ensures |r| == |w|
    decreases n
  {
    if n == 0 then w
    else ScatterCell(idx[n - 1], vals[n - 1], ScatterCells(idx, vals, w, n - 1), |idx[n - 1]|)
  }

  /** The whole table scattered into w. */
  function Scatter(idx: Table, vals: Values, w: Vec): Vec
    requires Shaped(idx, vals) && Bounded(idx, |w|)
  {
    ScatterCells(idx, vals, w, |idx|)
  }

  /** The value the last write to j among the first n cells stores, or w[j]
      when none of them writes j. */
  function LastWriteValue(idx: Table, vals: Values, w: Vec, n: nat, j: nat): int
    requires Shaped(idx, vals) && n <= |idx| && j < |w|
  {
    match LastWrite(idx, j, n)
    case None => w[j]
    case Some(p) => vals[p.cell][p.slot]
  }

  lemma {:induction false} ScatterCellAt(slots: seq<nat>, vals: seq<int>, w: Vec, n: nat, j: nat)
    requires |slots| == |vals| && SlotsBelow(slots, |w|) && n <= |slots| && j < |w|
    ensures ScatterCell(slots, vals, w, n)[j] ==
              match LastSlot(slots, j, n) case None => w[j] case Some(i) => vals[i]
    decreases n
  {
    if n > 0 {
      ScatterCellAt(slots, vals, w, n - 1, j);
    }
  }

  /** The fold and the pointwise "last write wins" description agree. */
  lemma {:induction false} ScatterAt(idx: Table, vals: Values, w: Vec, n: nat, j: nat)
    requires Shaped(idx, vals) && Bounded(idx, |w|) && n <= |idx| && j < |w|
    ensures ScatterCells(idx, vals, w, n)[j] == LastWriteValue(idx, vals, w, n, j)
    decreases n
  {
    if n > 0 {
      ScatterAt(idx, vals, w, n - 1, j);
      ScatterCellAt(idx[n - 1], vals[n - 1], ScatterCells(idx, vals, w, n - 1), |idx[n - 1]|, j);
    }
  }

  /**
   * What a scatter leaves behind: entries no cell lists keep their old value,
   * and every listed entry holds the value of its last write.
   */
  lemma ScatterSpec(idx: Table, vals: Values, w: Vec)
    requires Shaped(idx, vals) && Bounded(idx, |w|)
    ensures forall j :: 0 <= j < |w| && !Referenced(idx, j) ==> Scatter(idx, vals, w)[j] == w[j]
    ensures forall j: nat, c: nat, i: nat :: IsLastWrite(idx, j, c, i) ==> Scatter(idx, vals, w)[j] == vals[c][i]
  {
    forall j | 0 <= j < |w|
      ensures Scatter(idx, vals, w)[j] == LastWriteValue(idx, vals, w, |idx|, j)
    {
      ScatterAt(idx, vals, w, |idx|, j);
    }
    forall j: nat, c: nat, i: nat | IsLastWrite(idx, j, c, i)
      ensures Scatter(idx, vals, w)[j] == vals[c][i]
    {
      assert idx[c][i] < |w|;
      var p := LastWrite(idx, j, |idx|).value;
      assert p.cell == c && p.slot == i;
    }
  }

  /**
   * When every write to j stores the same value x, the scatter leaves x at j,
   * whatever the order in which the cells are visited.
   */
  lemma ScatterAgreeing(idx: Table, vals: Values, w: Vec, j: nat, x: int)
    requires Shaped(idx, vals) && Bounded(idx, |w|) && j < |w|
    requires forall c, i :: 0 <= c < |idx| && 0 <= i < |idx[c]| && idx[c][i] == j ==> vals[c][i] == x
    ensures Referenced(idx, j) ==> Scatter(idx, vals, w)[j] == x
  {
    ScatterAt(idx, vals, w, |idx|, j);
  }
}
