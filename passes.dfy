/** The two passes of the transition function over a slab: `transFunction`
    over columns 2..W-1, which never reads a ghost column, and
    `transFunctionBorders` over columns 1 and W, run once the ghosts arrived. */
module Passes {
  import opened Cells
  import opened Grid
  import opened Rules

  /** The values `rand()` returns for every cell a pass visits. */
  type Luck = (int, int) -> Draws

  /** The columns lo..hi-1. */
  function ColumnRange(lo: int, hi: int): (r: set<int>)
    decreases hi - lo
    ensures forall c :: c in r <==> lo <= c < hi
  {
    if lo >= hi then {} else {lo} + ColumnRange(lo + 1, hi)
  }

  /** `for (j = 2; j < Cols/Procs; ++j)` */
  function InteriorColumns(sh: Shape): set<int> {
    ColumnRange(2, sh.width)
  }

  /** The columns `for (j = 1; j < Cols/Procs+1; j += Cols/Procs-1)` visits. */
  function BorderColumns(sh: Shape): set<int> {
    {1, sh.width}
  }

  /** The owned columns 1..W. */
  function OwnedColumns(sh: Shape): set<int> {
    ColumnRange(1, sh.width + 1)
  }

  /** The values a loop `for (j = start; j < bound; j += stride)` gives j. */
  function Strided(start: int, bound: int, stride: nat): seq<int>
    requires stride > 0
    decreases bound - start
  {
    if start < bound then [start] + Strided(start + stride, bound, stride) else []
  }

  /** With W >= 2 the border loop has stride W-1 > 0 and visits 1 and W, in
      that order, and nothing else. */
  lemma {:induction false} BorderLoopVisits(sh: Shape)
    requires sh.Valid()
    ensures sh.width - 1 > 0
    ensures Strided(1, sh.width + 1, sh.width - 1) == [1, sh.width]
  {
    var w := sh.width;
    assert Strided(2 * w - 1, w + 1, w - 1) == [];
    assert Strided(w, w + 1, w - 1) == [w];
  }

  /** The two passes cover the owned columns, each column exactly once, and
      neither reaches a ghost column. */
  lemma {:induction false} ColumnsPartition(sh: Shape)
    requires sh.Valid()
    ensures InteriorColumns(sh) !! BorderColumns(sh)
    ensures InteriorColumns(sh) + BorderColumns(sh) == OwnedColumns(sh)
    ensures 0 !in OwnedColumns(sh) && sh.width + 1 !in OwnedColumns(sh)
  {
    forall c | c in OwnedColumns(sh) ensures c in InteriorColumns(sh) + BorderColumns(sh) {
      if c != 1 && c != sh.width {
        assert c in InteriorColumns(sh);
      }
    }
  }

  /** Every column of the set is owned. */
  predicate OwnedSet(sh: Shape, cols: set<int>) {
    forall c :: c in cols ==> 1 <= c <= sh.width
  }

  /** The write buffer after one pass over the columns `cols`: each cell of
      those columns holds its next value, computed from the read buffer and
      from its own previous content; every other cell is unchanged. */
  function Pass(g: seq<Cell>, w: seq<Cell>, sh: Shape, luck: Luck, cols: set<int>): (r: seq<Cell>)
    requires Bounded(g, sh) && |w| == sh.Size() && OwnedSet(sh, cols)
    ensures |r| == |w|
    ensures forall i, j :: 0 <= i < sh.rows && 0 <= j <= sh.width + 1 ==>
      At(r, sh, i, j) == if j in cols then NextCell(g, sh, i, j, At(w, sh, i, j), luck(i, j)) else At(w, sh, i, j)
  {
    seq(|w|, k requires 0 <= k < |w| =>
      var i, j := k % sh.rows, k / sh.rows;
      if j in cols then NextCell(g, sh, i, j, w[k], luck(i, j)) else w[k])
  }

  /** Two passes over disjoint column sets, against the same read buffer, are
      one pass over their union: no cell is updated twice. */
  lemma {:induction false} PassCompose(g: seq<Cell>, w: seq<Cell>, sh: Shape, luck: Luck, a: set<int>, b: set<int>)
    requires Bounded(g, sh) && |w| == sh.Size() && OwnedSet(sh, a) && OwnedSet(sh, b) && a !! b
    ensures Pass(g, Pass(g, w, sh, luck, a), sh, luck, b) == Pass(g, w, sh, luck, a + b)
  {
    var once := Pass(g, w, sh, luck, a);
    EqualByCells(Pass(g, once, sh, luck, b), Pass(g, w, sh, luck, a + b), sh);
  }

  /** The interior pass does not depend on the ghost columns: run before or
      after the halo has arrived, it writes the same buffer. */
  lemma {:induction false} InteriorIgnoresGhosts(g: seq<Cell>, g': seq<Cell>, w: seq<Cell>, sh: Shape, luck: Luck)
    requires Bounded(g, sh) && Bounded(g', sh) && SameOwned(g, g', sh) && |w| == sh.Size()
    ensures Pass(g, w, sh, luck, InteriorColumns(sh)) == Pass(g', w, sh, luck, InteriorColumns(sh))
  {
    var cols := InteriorColumns(sh);
    forall i, j | 0 <= i < sh.rows && 0 <= j <= sh.width + 1
      ensures At(Pass(g, w, sh, luck, cols), sh, i, j) == At(Pass(g', w, sh, luck, cols), sh, i, j)
    {
      if j in cols {
        NextCellLocal(g, g', sh, i, j, At(w, sh, i, j), luck(i, j));
      }
    }
    EqualByCells(Pass(g, w, sh, luck, cols), Pass(g', w, sh, luck, cols), sh);
  }

  /** One step of the slab: the interior pass against the buffer before the
      halo arrived, then the border pass against the buffer after, is one
      pass over all owned columns against the buffer after. */
  lemma {:induction false} TwoPassesAreOne(g: seq<Cell>, g': seq<Cell>, w: seq<Cell>, sh: Shape, luck: Luck)
    requires Bounded(g, sh) && Bounded(g', sh) && SameOwned(g, g', sh) && |w| == sh.Size()
    ensures Pass(g', Pass(g, w, sh, luck, InteriorColumns(sh)), sh, luck, BorderColumns(sh))
         == Pass(g', w, sh, luck, OwnedColumns(sh))
  {
    ColumnsPartition(sh);
    InteriorIgnoresGhosts(g, g', w, sh, luck);
    PassCompose(g', w, sh, luck, InteriorColumns(sh), BorderColumns(sh));
  }

  /** A full pass keeps the rock rows of every owned column, so the next
      read buffer is bounded again, and every rock cell stays rock. */
  lemma {:induction false} PassKeepsRock(g: seq<Cell>, w: seq<Cell>, sh: Shape, luck: Luck)
    requires Bounded(g, sh) && |w| == sh.Size()
    ensures Bounded(Pass(g, w, sh, luck, OwnedColumns(sh)), sh)
    ensures forall i, j :: 0 <= i < sh.rows && 1 <= j <= sh.width && IsRock(At(g, sh, i, j)) ==>
      At(Pass(g, w, sh, luck, OwnedColumns(sh)), sh, i, j) == Rock
  {
    var r := Pass(g, w, sh, luck, OwnedColumns(sh));
    forall j | 1 <= j <= sh.width ensures BorderRock(r, sh, j) {
      assert BorderRock(g, sh, j);
    }
  }
}
