/**
 * The two `initialize` overloads of the test: one seeds the active-level
 * vector by component, the other numbers the slots of the first level-0
 * cell 1, 2, ..., dofs_per_cell.
 */
module Initialize {
  import opened CellTables
  import opened Numberings

  /** Slot i of one cell carries component(i) + 1. */
  function SlotComponents(component: seq<nat>): (vals: seq<int>)
    ensures |vals| == |component|
    ensures forall i :: 0 <= i < |component| ==> vals[i] == component[i] + 1
  {
    seq(|component|, i requires 0 <= i < |component| => component[i] + 1)
  }

  /** Slot i of each of n cells carries component(i) + 1. */
  function ComponentValues(dof: Numbering, n: nat): (vals: Values)
    requires dof.ElementOk()
    ensures |vals| == n
    ensures forall c :: 0 <= c < n ==> vals[c] == SlotComponents(dof.component)
    ensures forall c, i :: 0 <= c < n && 0 <= i < dof.dofsPerCell ==>
              |vals[c]| == dof.dofsPerCell && vals[c][i] == dof.component[i] + 1
  {
    seq(n, _ => SlotComponents(dof.component))
  }

  /** The active vector u after seeding by component, as a fold. */
  function ComponentSeed(dof: Numbering, u: Vec): Vec
    requires dof.ElementOk() && Uniform(dof.activeCells, dof.dofsPerCell)
    requires Bounded(dof.activeCells, |u|)
  {
    Scatter(dof.activeCells, ComponentValues(dof, |dof.activeCells|), u)
  }

  /** A global index listed by two slots always belongs to the same component
      (true of any numbering: a degree of freedom has one component). */
  predicate ComponentConsistent(idx: Table, component: seq<nat>) {
    forall c, i, c', i' ::
      && 0 <= c < |idx| && 0 <= i < |idx[c]| && i < |component|
      && 0 <= c' < |idx| && 0 <= i' < |idx[c']| && i' < |component|
      && idx[c][i] == idx[c'][i']
      ==> component[i] == component[i']
  }

  predicate Distinct(s: seq<nat>) {
    forall i, i' :: 0 <= i < i' < |s| ==> s[i] != s[i']
  }

  /** Seeding by component stores component(p.slot) + 1 at index j, where
      p is the last write to j. */
  lemma ComponentScatterAt(dof: Numbering, u: Vec, j: nat)
    requires dof.ElementOk() && Uniform(dof.activeCells, dof.dofsPerCell)
    requires Bounded(dof.activeCells, |u|) && j < |u|
    ensures var r := ComponentSeed(dof, u);
      match LastWrite(dof.activeCells, j, |dof.activeCells|)
      case None => r[j] == u[j]
      case Some(p) => r[j] == dof.component[p.slot] + 1
  {
    ScatterAt(dof.activeCells, ComponentValues(dof, |dof.activeCells|), u, |dof.activeCells|, j);
  }

  /** Seeding by component keeps unlisted entries and stores component + 1
      of the last slot that lists an index. */
  lemma ComponentLastWrite(dof: Numbering, u: Vec)
    requires dof.ElementOk() && Uniform(dof.activeCells, dof.dofsPerCell)
    requires Bounded(dof.activeCells, |u|)
    ensures var r := ComponentSeed(dof, u);
      && (forall j :: 0 <= j < |u| && !Referenced(dof.activeCells, j) ==> r[j] == u[j])
      && (forall j: nat, c: nat, i: nat :: IsLastWrite(dof.activeCells, j, c, i) ==>
            r[j] == dof.component[i] + 1)
  {
    ScatterSpec(dof.activeCells, ComponentValues(dof, |dof.activeCells|), u);
  }

  /** With components below n_components, every entry the seeding writes
      lies in 1..n_components. */
  lemma ComponentRange(dof: Numbering, u: Vec)
    requires dof.ElementOk() && Uniform(dof.activeCells, dof.dofsPerCell)
    requires Bounded(dof.activeCells, |u|)
    ensures var r := ComponentSeed(dof, u);
      forall j :: 0 <= j < |u| && Referenced(dof.activeCells, j) ==> 1 <= r[j] <= dof.nComponents
  {
    var cells := dof.activeCells;
    var r := Scatter(cells, ComponentValues(dof, |cells|), u);
    forall j | 0 <= j < |u| && Referenced(cells, j)
      ensures 1 <= r[j] <= dof.nComponents
    {
      ComponentScatterAt(dof, u, j);
      var p := LastWrite(cells, j, |cells|).value;
      assert r[j] == dof.component[p.slot] + 1;
    }
  }

  /** When shared indices always carry one component, every slot of every
      active cell finds its own component + 1, whichever cell wrote last. */
  lemma ComponentEverySlot(dof: Numbering, u: Vec)
    requires dof.ElementOk() && Uniform(dof.activeCells, dof.dofsPerCell)
    requires Bounded(dof.activeCells, |u|)
    requires ComponentConsistent(dof.activeCells, dof.component)
    ensures var r := ComponentSeed(dof, u);
      forall c, i :: 0 <= c < |dof.activeCells| && 0 <= i < dof.dofsPerCell ==>
        r[dof.activeCells[c][i]] == dof.component[i] + 1
  {
    var cells := dof.activeCells;
    var r := Scatter(cells, ComponentValues(dof, |cells|), u);
    forall c, i | 0 <= c < |cells| && 0 <= i < dof.dofsPerCell
      ensures r[cells[c][i]] == dof.component[i] + 1
    {
      assert cells[c][i] < |u|;
      ComponentScatterAt(dof, u, cells[c][i]);
      var p := LastWrite(cells, cells[c][i], |cells|).value;
      assert r[cells[c][i]] == dof.component[p.slot] + 1;
    }
  }

  /**
   * `initialize(dof, u)` on the active vector: every slot of every active
   * cell stores component + 1 at its global index, later cells overwriting
   * earlier ones; entries that no active cell lists keep their value.
   */
  method InitializeActive(dof: Numbering, u: Vec) returns (r: Vec)
    requires dof.ElementOk() && Uniform(dof.activeCells, dof.dofsPerCell)
    requires Bounded(dof.activeCells, |u|)
    ensures |r| == |u|
    ensures r == ComponentSeed(dof, u)
    ensures forall j :: 0 <= j < |u| && !Referenced(dof.activeCells, j) ==> r[j] == u[j]
    ensures forall j: nat, c: nat, i: nat :: IsLastWrite(dof.activeCells, j, c, i) ==>
              r[j] == dof.component[i] + 1
    ensures forall j :: 0 <= j < |u| && Referenced(dof.activeCells, j) ==>
              1 <= r[j] <= dof.nComponents
    ensures ComponentConsistent(dof.activeCells, dof.component) ==>
              forall c, i :: 0 <= c < |dof.activeCells| && 0 <= i < dof.dofsPerCell ==>
                r[dof.activeCells[c][i]] == dof.component[i] + 1
  {
    r := SeedCells(dof, u);
    ComponentLastWrite(dof, u);
    ComponentRange(dof, u);
    if ComponentConsistent(dof.activeCells, dof.component) {
      ComponentEverySlot(dof, u);
    }
  }

  /** The cell loop of the active `initialize`, cell after cell. */
  method SeedCells(dof: Numbering, u: Vec) returns (r: Vec)
    requires dof.ElementOk() && Uniform(dof.activeCells, dof.dofsPerCell)
    requires Bounded(dof.activeCells, |u|)
    ensures r == ComponentSeed(dof, u)
  {
    var cells := dof.activeCells;
    ghost var vals := ComponentValues(dof, |cells|);
    r := u;
    var c := 0;
    while c < |cells|
      invariant 0 <= c <= |cells|
      invariant r == ScatterCells(cells, vals, u, c)
    {
      r := SeedCell(cells[c], dof.component, r);
      c := c + 1;
    }
  }

  /** The slot loop of the active `initialize` for one cell: slot i stores
      component(i) + 1 at slots[i], in slot order. */
  method SeedCell(slots: seq<nat>, component: seq<nat>, r0: Vec) returns (r: Vec)
    requires |slots| == |component| && SlotsBelow(slots, |r0|)
    ensures r == ScatterCell(slots, SlotComponents(component), r0, |slots|)
  {
    ghost var vals := SlotComponents(component);
    r := r0;
    var i := 0;
    while i < |component|
      invariant 0 <= i <= |component|
      invariant r == ScatterCell(slots, vals, r0, i)
    {
      var comp := component[i];
      r := r[slots[i] := comp + 1];
      i := i + 1;
    }
  }

  /** The numbers 1, 2, ..., n, one per slot. */
  function SlotNumbers(n: nat): (vals: seq<int>)
    ensures |vals| == n
    ensures forall i :: 0 <= i < n ==> vals[i] == i + 1
  {
    seq(n, i => i + 1)
  }

  /** Numbering the slots of one cell keeps the entries it does not list. */
  lemma NumberCellUnlisted(cell: seq<nat>, w: Vec)
    requires SlotsBelow(cell, |w|)
    ensures var r := ScatterCell(cell, SlotNumbers(|cell|), w, |cell|);
      forall j :: 0 <= j < |w| && j !in cell ==> r[j] == w[j]
  {
    forall j | 0 <= j < |w| && j !in cell
      ensures ScatterCell(cell, SlotNumbers(|cell|), w, |cell|)[j] == w[j]
    {
      ScatterCellAt(cell, SlotNumbers(|cell|), w, |cell|, j);
    }
  }

  /** Numbering the slots of one cell stores i + 1 at the index whose last
      slot is i. */
  lemma NumberCellLast(cell: seq<nat>, w: Vec)
    requires SlotsBelow(cell, |w|)
    ensures var r := ScatterCell(cell, SlotNumbers(|cell|), w, |cell|);
      forall i :: 0 <= i < |cell| ==>
        (forall i' :: i < i' < |cell| ==> cell[i'] != cell[i]) ==> r[cell[i]] == i + 1
  {
    forall i | 0 <= i < |cell| && (forall i' :: i < i' < |cell| ==> cell[i'] != cell[i])
      ensures ScatterCell(cell, SlotNumbers(|cell|), w, |cell|)[cell[i]] == i + 1
    {
      ScatterCellAt(cell, SlotNumbers(|cell|), w, |cell|, cell[i]);
    }
  }

  /** Numbering the slots of one cell writes only values in 1..|cell|. */
  lemma NumberCellRange(cell: seq<nat>, w: Vec)
    requires SlotsBelow(cell, |w|)
    ensures var r := ScatterCell(cell, SlotNumbers(|cell|), w, |cell|);
      forall j :: j in cell ==> 1 <= r[j] <= |cell|
  {
    forall j | j in cell
      ensures 1 <= ScatterCell(cell, SlotNumbers(|cell|), w, |cell|)[j] <= |cell|
    {
      ScatterCellAt(cell, SlotNumbers(|cell|), w, |cell|, j);
    }
  }

  /** The slot loop of the level `initialize`: a running counter numbers
      the slots of one cell 1, 2, ..., in slot order. */
  method NumberCell(cell: seq<nat>, w: Vec) returns (r: Vec, counter: nat)
    requires SlotsBelow(cell, |w|)
    ensures counter == |cell|
    ensures r == ScatterCell(cell, SlotNumbers(|cell|), w, |cell|)
  {
    ghost var vals := SlotNumbers(|cell|);
    r := w;
    counter := 0;
    var i := 0;
    while i < |cell|
      invariant 0 <= i <= |cell|
      invariant counter == i
      invariant r == ScatterCell(cell, vals, w, i)
    {
      counter := counter + 1;
      r := r[cell[i] := counter];
      i := i + 1;
    }
  }

  /**
   * `initialize(dof, u)` on a level object: the level-0 vector gets
   * 1, 2, ..., dofs_per_cell at the level indices of the first level-0 cell,
   * in slot order; nothing else changes. `counter` is the running number.
   */
  method InitializeLevel(dof: Numbering, u: LevelObject) returns (r: LevelObject, counter: nat)
    requires u.Holds(0)
    requires |dof.levelCells| > 0 && |dof.levelCells[0]| > 0
    requires |dof.levelCells[0][0]| == dof.dofsPerCell
    requires SlotsBelow(dof.levelCells[0][0], |u.Get(0)|)
    ensures counter == dof.dofsPerCell
    ensures r.minlevel == u.minlevel && |r.vecs| == |u.vecs|
    ensures forall level: nat :: u.Holds(level) && level != 0 ==> r.Get(level) == u.Get(level)
    ensures |r.Get(0)| == |u.Get(0)|
    ensures forall j :: 0 <= j < |u.Get(0)| && j !in dof.levelCells[0][0] ==>
              r.Get(0)[j] == u.Get(0)[j]
    ensures forall i :: 0 <= i < dof.dofsPerCell ==>
              (forall i' :: i < i' < dof.dofsPerCell ==> dof.levelCells[0][0][i'] != dof.levelCells[0][0][i]) ==>
                r.Get(0)[dof.levelCells[0][0][i]] == i + 1
    ensures Distinct(dof.levelCells[0][0]) ==>
              forall i :: 0 <= i < dof.dofsPerCell ==> r.Get(0)[dof.levelCells[0][0][i]] == i + 1
    ensures forall j :: j in dof.levelCells[0][0] ==> 1 <= r.Get(0)[j] <= dof.dofsPerCell
  {
    var cell := dof.levelCells[0][0];
    var level0: Vec;
    level0, counter := NumberCell(cell, u.Get(0));
    r := LevelObject(u.minlevel, u.vecs[0 := level0]);
    NumberCellUnlisted(cell, u.Get(0));
    NumberCellLast(cell, u.Get(0));
    NumberCellRange(cell, u.Get(0));
  }
}
