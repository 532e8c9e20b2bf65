/**
 * The comparison loop of `LaplaceProblem::test`: for every level, the
 * difference of the two level vectors under the slot correspondence, and a
 * report of every nonzero entry of that difference.
 */
module Report {
  import opened CellTables
  import opened Numberings
  import opened LevelDiff

  /** One report line: an index of the difference and its nonzero value. */
  datatype Entry = Entry(index: nat, value: int)

  /** rep lists exactly the nonzero entries of d, by increasing index. */
  predicate ReportsNonzeros(rep: seq<Entry>, d: Vec) {
    && (forall k :: 0 <= k < |rep| ==>
          rep[k].index < |d| && rep[k].value == d[rep[k].index] && rep[k].value != 0)
    && (forall k, k' :: 0 <= k < k' < |rep| ==> rep[k].index < rep[k'].index)
    && (forall j :: 0 <= j < |d| && d[j] != 0 ==> exists k :: 0 <= k < |rep| && rep[k].index == j)
  }

  /**
   * The reporting loop: every index whose entry is nonzero is reported, with
   * its value, in increasing order; nothing else is, and none is skipped.
   */
  method NonzeroReport(d: Vec) returns (rep: seq<Entry>)
    ensures ReportsNonzeros(rep, d)
  {
    rep := [];
    var i := 0;
    while i < |d|
      invariant 0 <= i <= |d|
      invariant forall k :: 0 <= k < |rep| ==>
                  rep[k].index < i && rep[k].value == d[rep[k].index] && rep[k].value != 0
      invariant forall k, k' :: 0 <= k < k' < |rep| ==> rep[k].index < rep[k'].index
      invariant forall j :: 0 <= j < i && d[j] != 0 ==> Entry(j, d[j]) in rep
    {
      if d[i] != 0 {
        rep := rep + [Entry(i, d[i])];
      }
      i := i + 1;
    }
    forall j | 0 <= j < |d| && d[j] != 0
      ensures exists k :: 0 <= k < |rep| && rep[k].index == j
    {
      assert Entry(j, d[j]) in rep;
    }
  }

  /** A report of the nonzero entries is empty exactly when the vector is zero. */
  lemma ReportEmptyIffZero(rep: seq<Entry>, d: Vec)
    requires ReportsNonzeros(rep, d)
    ensures |rep| == 0 <==> IsZero(d)
  {
    if |rep| > 0 {
      assert d[rep[0].index] != 0;
    }
  }

  /**
   * The verdict on one level: a complete report of the difference is empty
   * when the vectors agree, and, for numberings of the same degrees of
   * freedom, only then.
   */
  lemma LevelVerdict(idx1: Table, idx2: Table, u: Vec, v: Vec, rep: seq<Entry>)
    requires DiffDomain(idx1, idx2, u, v)
    requires ReportsNonzeros(rep, DiffFold(idx1, idx2, u, v))
    ensures Agree(idx1, idx2, u, v) ==> rep == []
    ensures Corresponds(idx1, idx2) ==> (rep == [] <==> Agree(idx1, idx2, u, v))
  {
    ReportEmptyIffZero(rep, DiffFold(idx1, idx2, u, v));
    if Agree(idx1, idx2, u, v) {
      DiffZeroWhenAgree(idx1, idx2, u, v);
    }
    if Corresponds(idx1, idx2) {
      DiffZeroIffAgree(idx1, idx2, u, v);
    }
  }

  /**
   * What the comparison needs of two numberings and their level vectors:
   * the same levels, from 0, with the same cells and dofs_per_cell slots on
   * each, and level indices that address the respective vectors.
   */
  predicate Comparable(dof1: Numbering, dof2: Numbering, v: LevelObject, u: LevelObject) {
    && SameMesh(dof1, dof2)
    && v.minlevel == 0 && |v.vecs| == |dof1.levelCells|
    && u.minlevel == 0 && |u.vecs| == |dof1.levelCells|
    && forall l :: 0 <= l < |dof1.levelCells| ==>
         && Uniform(dof1.levelCells[l], dof1.dofsPerCell)
         && Uniform(dof2.levelCells[l], dof1.dofsPerCell)
         && Bounded(dof1.levelCells[l], |v.vecs[l]|)
         && Bounded(dof2.levelCells[l], |u.vecs[l]|)
  }

  /** One pass of the level loop in `test`: the difference on one level
      and the report of its nonzero entries. */
  method CompareLevel(dof1: Numbering, dof2: Numbering, v: Vec, u: Vec, level: nat)
      returns (d: Vec, rep: seq<Entry>)
    requires level < |dof1.levelCells| && level < |dof2.levelCells|
    requires |dof1.levelCells[level]| == |dof2.levelCells[level]|
    requires Uniform(dof1.levelCells[level], dof1.dofsPerCell)
    requires Uniform(dof2.levelCells[level], dof1.dofsPerCell)
    requires Bounded(dof1.levelCells[level], |v|) && Bounded(dof2.levelCells[level], |u|)
    ensures DiffDomain(dof1.levelCells[level], dof2.levelCells[level], v, u)
    ensures d == DiffFold(dof1.levelCells[level], dof2.levelCells[level], v, u)
    ensures ReportsNonzeros(rep, d)
  {
    d := Diff(dof1, dof2, v, u, level);
    rep := NonzeroReport(d);
  }

  /** The level loop in `test`, levels 0, 1, ..., n_levels - 1 in turn:
      the difference on each level and the report of its nonzero entries. */
  method CompareLevels(dof1: Numbering, dof2: Numbering, v: LevelObject, u: LevelObject)
      returns (ds: seq<Vec>, reports: seq<seq<Entry>>)
    requires Comparable(dof1, dof2, v, u)
    ensures |ds| == |reports| == |dof1.levelCells|
    ensures forall l :: 0 <= l < |dof1.levelCells| ==>
              && DiffDomain(dof1.levelCells[l], dof2.levelCells[l], v.vecs[l], u.vecs[l])
              && ds[l] == DiffFold(dof1.levelCells[l], dof2.levelCells[l], v.vecs[l], u.vecs[l])
              && ReportsNonzeros(reports[l], ds[l])
  {
    var n := |dof1.levelCells|;
    ds := [];
    reports := [];
    var l := 0;
    while l < n
      invariant 0 <= l <= n
      invariant |ds| == |reports| == l
      invariant forall k :: 0 <= k < l ==>
                  && DiffDomain(dof1.levelCells[k], dof2.levelCells[k], v.vecs[k], u.vecs[k])
                  && ds[k] == DiffFold(dof1.levelCells[k], dof2.levelCells[k], v.vecs[k], u.vecs[k])
                  && ReportsNonzeros(reports[k], ds[k])
    {
      var dl, rl := CompareLevel(dof1, dof2, v.vecs[l], u.vecs[l], l);
      ds := ds + [dl];
      reports := reports + [rl];
      l := l + 1;
    }
  }

  /**
   * The loop over levels in `test`: d holds, per level, the difference of v
   * (first numbering) and u (second numbering), and reports[l] every nonzero
   * entry of d at level l. All levels are checked, none stops the others.
   * On a level where v and u agree at every pair of corresponding slots
   * nothing is reported; for numberings of the same degrees of freedom,
   * nothing is reported on a level ONLY when they agree there.
   */
  method TestLevels(dof1: Numbering, dof2: Numbering, v: LevelObject, u: LevelObject)
      returns (d: LevelObject, reports: seq<seq<Entry>>)
    requires Comparable(dof1, dof2, v, u)
    ensures forall l :: 0 <= l < |dof1.levelCells| ==>
              DiffDomain(dof1.levelCells[l], dof2.levelCells[l], v.vecs[l], u.vecs[l])
    ensures d.minlevel == 0 && |d.vecs| == |reports| == |dof1.levelCells|
    ensures forall l :: 0 <= l < |dof1.levelCells| ==>
              d.vecs[l] == DiffFold(dof1.levelCells[l], dof2.levelCells[l], v.vecs[l], u.vecs[l])
    ensures forall l :: 0 <= l < |dof1.levelCells| ==> ReportsNonzeros(reports[l], d.vecs[l])
    ensures forall l :: 0 <= l < |dof1.levelCells| ==>
              (Agree(dof1.levelCells[l], dof2.levelCells[l], v.vecs[l], u.vecs[l]) ==> reports[l] == [])
    ensures forall l :: 0 <= l < |dof1.levelCells| ==>
              (Corresponds(dof1.levelCells[l], dof2.levelCells[l]) ==>
                (reports[l] == [] <==> Agree(dof1.levelCells[l], dof2.levelCells[l], v.vecs[l], u.vecs[l])))
  {
    var n := |dof1.levelCells|;
    var ds;
    ds, reports := CompareLevels(dof1, dof2, v, u);
    d := LevelObject(0, ds);
    forall k | 0 <= k < n
      ensures Agree(dof1.levelCells[k], dof2.levelCells[k], v.vecs[k], u.vecs[k]) ==> reports[k] == []
      ensures Corresponds(dof1.levelCells[k], dof2.levelCells[k]) ==>
                (reports[k] == [] <==> Agree(dof1.levelCells[k], dof2.levelCells[k], v.vecs[k], u.vecs[k]))
    {
      LevelVerdict(dof1.levelCells[k], dof2.levelCells[k], v.vecs[k], u.vecs[k], reports[k]);
    }
  }
}
