/**
 * Why the comparison in the test can come out zero: the active vector is
 * seeded by component, not by index, so two numberings of the same mesh
 * produce seeds that agree at every pair of corresponding slots.
 */
module Invariance {
  import opened CellTables
  import opened Numberings
  import opened Initialize
  import opened LevelDiff

  /**
   * Seeding by component is numbering-independent: for two numberings with
   * the same element and the same active cells, in each of which a shared
   * index keeps one component, the seeded vectors agree slot by slot, and
   * their difference is the zero vector.
   */
  lemma SeedsAgree(dof1: Numbering, dof2: Numbering, u1: Vec, u2: Vec)
    requires dof1.ElementOk() && Uniform(dof1.activeCells, dof1.dofsPerCell)
    requires dof2.ElementOk() && Uniform(dof2.activeCells, dof2.dofsPerCell)
    requires dof1.component == dof2.component
    requires |dof1.activeCells| == |dof2.activeCells|
    requires Bounded(dof1.activeCells, |u1|) && Bounded(dof2.activeCells, |u2|)
    requires ComponentConsistent(dof1.activeCells, dof1.component)
    requires ComponentConsistent(dof2.activeCells, dof2.component)
    ensures DiffDomain(dof1.activeCells, dof2.activeCells, ComponentSeed(dof1, u1), ComponentSeed(dof2, u2))
    ensures Agree(dof1.activeCells, dof2.activeCells, ComponentSeed(dof1, u1), ComponentSeed(dof2, u2))
    ensures IsZero(DiffFold(dof1.activeCells, dof2.activeCells, ComponentSeed(dof1, u1), ComponentSeed(dof2, u2)))
  {
    var s1 := ComponentSeed(dof1, u1);
    var s2 := ComponentSeed(dof2, u2);
    ComponentEverySlot(dof1, u1);
    ComponentEverySlot(dof2, u2);
    assert DiffDomain(dof1.activeCells, dof2.activeCells, s1, s2);
    forall c, i | 0 <= c < |dof1.activeCells| && 0 <= i < |dof1.activeCells[c]|
      ensures s1[dof1.activeCells[c][i]] == s2[dof2.activeCells[c][i]]
    {
      assert s1[dof1.activeCells[c][i]] == dof1.component[i] + 1;
      assert s2[dof2.activeCells[c][i]] == dof2.component[i] + 1;
    }
    DiffZeroWhenAgree(dof1.activeCells, dof2.activeCells, s1, s2);
  }
}
