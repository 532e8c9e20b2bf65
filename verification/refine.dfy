/**
 * The flag-selection rule of `LaplaceProblem::refine_local`: flag every
 * active cell that has a vertex near the origin; when no cell has one,
 * flag every active cell (global refinement). The Euclidean distance test
 * is the abstract per-vertex predicate `near`.
 */
module Refine {

  predicate HasNearVertex<V>(vertices: seq<V>, near: V -> bool) {
    exists k :: 0 <= k < |vertices| && near(vertices[k])
  }

  predicate AnyNearCell<V>(cells: seq<seq<V>>, near: V -> bool) {
    exists c :: 0 <= c < |cells| && HasNearVertex(cells[c], near)
  }

  /**
   * Given each active cell's vertices, in iteration order, returns the
   * refine flags and whether the local pass flagged anything. The local pass
   * flags exactly the cells with a near vertex; the global fallback runs
   * exactly when it flagged none, and then every cell is flagged. Whenever
   * there is an active cell, at least one is flagged.
   */
  method RefineLocal<V>(cells: seq<seq<V>>, near: V -> bool) returns (flags: seq<bool>, cellRefined: bool)
    ensures |flags| == |cells|
    ensures cellRefined <==> AnyNearCell(cells, near)
    ensures cellRefined ==> forall c :: 0 <= c < |cells| ==> (flags[c] <==> HasNearVertex(cells[c], near))
    ensures !cellRefined ==> forall c :: 0 <= c < |cells| ==> flags[c]
    ensures |cells| > 0 ==> exists c :: 0 <= c < |cells| && flags[c]
  {
    flags := seq(|cells|, _ => false);
    cellRefined := false;
    var c := 0;
    while c < |cells|
      invariant 0 <= c <= |cells|
      invariant |flags| == |cells|
      invariant forall c' :: 0 <= c' < c ==> (flags[c'] <==> HasNearVertex(cells[c'], near))
      invariant forall c' :: c <= c' < |cells| ==> !flags[c']
      invariant cellRefined <==> exists c' :: 0 <= c' < c && HasNearVertex(cells[c'], near)
    {
      var vertex := 0;
      while vertex < |cells[c]|
        invariant 0 <= vertex <= |cells[c]|
        invariant forall k :: 0 <= k < vertex ==> !near(cells[c][k])
      {
        if near(cells[c][vertex]) {
          flags := flags[c := true];
          cellRefined := true;
          break;
        }
        vertex := vertex + 1;
      }
      c := c + 1;
    }
    if !cellRefined {
      var c := 0;
      while c < |cells|
        invariant 0 <= c <= |cells|
        invariant |flags| == |cells|
        invariant forall c' :: 0 <= c' < c ==> flags[c']
      {
        flags := flags[c := true];
        c := c + 1;
      }
      assert |cells| > 0 ==> flags[0];
    } else {
      var c' :| 0 <= c' < |cells| && HasNearVertex(cells[c'], near);
      assert flags[c'];
    }
  }
}
