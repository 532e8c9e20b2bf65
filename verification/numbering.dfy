/**
 * A numbering of the degrees of freedom of one mesh hierarchy (what a
 * multilevel DoF handler holds after `distribute_dofs`, and again after a
 * component-wise renumbering), and the per-level vector container.
 */
module Numberings {
  import opened CellTables

  /**
   * One numbering instance.
   *  - dofsPerCell: local slots per cell of the (single) finite element;
   *  - component:   slot -> vector component it belongs to
   *                 (`system_to_component_index(i).first`);
   *  - activeCells: per active cell, the global indices of its slots;
   *  - levelDofs:   per level l, n_dofs(l);
   *  - levelCells:  per level l, per cell of that level, its level indices.
   * The active dof count is not stored: the test sizes its active vector
   * itself and the routines here only need the indices to fit that vector.
   */
  datatype Numbering = Numbering(
    dofsPerCell: nat,
    component: seq<nat>,
    nComponents: nat,
    activeCells: Table,
    levelDofs: seq<nat>,
    levelCells: seq<Table>)
  {
    function NLevels(): nat { |levelDofs| }

    /** The finite element: one component per slot, each below n_components. */
    predicate ElementOk() {
      && |component| == dofsPerCell
      && forall i :: 0 <= i < |component| ==> component[i] < nComponents
    }
  }

  /** Two numberings of the same hierarchy: same element, same levels, and
      the same cells on every level. */
  predicate SameMesh(a: Numbering, b: Numbering) {
    && a.dofsPerCell == b.dofsPerCell
    && |a.levelCells| == |b.levelCells|
    && forall l :: 0 <= l < |a.levelCells| ==> |a.levelCells[l]| == |b.levelCells[l]|
  }

  /** One vector per level minlevel, minlevel + 1, ..., minlevel + |vecs| - 1. */
  datatype LevelObject = LevelObject(minlevel: nat, vecs: seq<Vec>)
  {
    predicate Holds(level: nat) {
      minlevel <= level < minlevel + |vecs|
    }

    function Get(level: nat): Vec
      requires Holds(level)
    {
      vecs[level - minlevel]
    }
  }

  /**
   * `reinit_vector`: every level the container holds gets a zero vector of
   * that level's dof count; the level range itself is unchanged.
   */
  method ReinitVector(dof: Numbering, v: LevelObject) returns (r: LevelObject)
    requires v.minlevel + |v.vecs| <= dof.NLevels()
    ensures r.minlevel == v.minlevel && |r.vecs| == |v.vecs|
    ensures forall level: nat :: r.Holds(level) ==>
              |r.Get(level)| == dof.levelDofs[level] && IsZero(r.Get(level))
  {
    var vecs := v.vecs;
    var level := v.minlevel;
    while level < v.minlevel + |v.vecs|
      invariant v.minlevel <= level <= v.minlevel + |v.vecs|
      invariant |vecs| == |v.vecs|
      invariant forall k :: 0 <= k < level - v.minlevel ==>
                  |vecs[k]| == dof.levelDofs[v.minlevel + k] && IsZero(vecs[k])
    {
      var n := dof.levelDofs[level];
      vecs := vecs[level - v.minlevel := Zeros(n)];
      level := level + 1;
    }
    r := LevelObject(v.minlevel, vecs);
  }
}
