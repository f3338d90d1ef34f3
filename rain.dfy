/** `dropWater`: with the draw `a = rand() % waterPercentage` above
    `waterPercentage - 30`, one unit of water lands on the first non-rock cell
    of column `xW = rand() % W + 1`, scanning down from row 2. */
module Rain {
  import opened Cells
  import opened Grid

  /** `a > waterPercentage - 30` for `a = drawA % waterPercentage`. */
  predicate Raining(drawA: nat) {
    drawA % WaterPercentage > WaterPercentage - 30
  }

  /** `xW = rand() % (Cols/Procs) + 1`: always an owned column. */
  function DropColumn(sh: Shape, drawCol: nat): (col: int)
    requires sh.width > 0
    ensures 1 <= col <= sh.width
  {
    drawCol % sh.width + 1
  }

  /** The first row at or below `from` whose cell in column `col` is not rock. */
  function FirstNonRock(g: seq<Cell>, sh: Shape, col: int, from: nat): (r: Option<nat>)
    requires |g| == sh.Size() && 0 <= col <= sh.width + 1
    decreases sh.rows - from
    ensures r.Some? ==> from <= r.value < sh.rows && !IsRock(At(g, sh, r.value, col))
    ensures r.Some? ==> forall y :: from <= y < r.value ==> IsRock(At(g, sh, y, col))
    ensures r.None? <==> forall y :: from <= y < sh.rows ==> IsRock(At(g, sh, y, col))
  {
    if from >= sh.rows then None
    else if !IsRock(At(g, sh, from, col)) then Some(from)
    else FirstNonRock(g, sh, col, from + 1)
  }

  /** The scan stops at the first non-rock row it meets. */
  lemma {:induction false} FirstNonRockAt(g: seq<Cell>, sh: Shape, col: int, from: nat, y: nat)
    requires |g| == sh.Size() && 0 <= col <= sh.width + 1
    requires from <= y < sh.rows && !IsRock(At(g, sh, y, col))
    requires forall r :: from <= r < y ==> IsRock(At(g, sh, r, col))
    decreases y - from
    ensures FirstNonRock(g, sh, col, from) == Some(y)
  {
    if from < y {
      assert IsRock(At(g, sh, from, col));
      FirstNonRockAt(g, sh, col, from + 1, y);
    }
  }

  /** The read buffer after `dropWater`. */
  function Drop(g: seq<Cell>, sh: Shape, drawA: nat, drawCol: nat): seq<Cell>
    requires |g| == sh.Size() && sh.Valid()
  {
    if !Raining(drawA) then g
    else
      var col := DropColumn(sh, drawCol);
      match FirstNonRock(g, sh, col, 2)
      case None => g
      case Some(y) =>
        var c := At(g, sh, y, col);
        g[CoordsToIndex(sh, y, col) := c.(water := AddWater(c.water, 1))]
  }

  /** `dropWater` changes at most one cell, and a cell changes exactly when it
      is the first non-rock cell of the drop column from row 2 on and the draw
      says rain; it then holds one more unit of water (modulo 4) and the same
      sediment. */
  lemma {:induction false} DropEffect(g: seq<Cell>, sh: Shape, drawA: nat, drawCol: nat)
    requires |g| == sh.Size() && sh.Valid()
    ensures |Drop(g, sh, drawA, drawCol)| == |g|
    ensures forall i, j :: 0 <= i < sh.rows && 0 <= j <= sh.width + 1 ==>
      var before, after := At(g, sh, i, j), At(Drop(g, sh, drawA, drawCol), sh, i, j);
      && (after != before <==> Raining(drawA) && j == DropColumn(sh, drawCol) && FirstNonRock(g, sh, j, 2) == Some(i))
      && (after != before ==> after == Cell(AddWater(before.water, 1), before.sediment))
  {
    var r := Drop(g, sh, drawA, drawCol);
    forall i, j | 0 <= i < sh.rows && 0 <= j <= sh.width + 1
      ensures var before, after := At(g, sh, i, j), At(r, sh, i, j);
        && (after != before <==> Raining(drawA) && j == DropColumn(sh, drawCol) && FirstNonRock(g, sh, j, 2) == Some(i))
        && (after != before ==> after == Cell(AddWater(before.water, 1), before.sediment))
    {
      if Raining(drawA) {
        var col := DropColumn(sh, drawCol);
        var first := FirstNonRock(g, sh, col, 2);
        if first.Some? {
          var y := first.value;
          CoordsInjective(sh, i, j, y, col);
        }
      }
    }
  }

  /** `dropWater` never touches rock. */
  lemma DropSparesRock(g: seq<Cell>, sh: Shape, drawA: nat, drawCol: nat)
    requires |g| == sh.Size() && sh.Valid()
    ensures forall i, j :: 0 <= i < sh.rows && 0 <= j <= sh.width + 1 && IsRock(At(g, sh, i, j)) ==>
      At(Drop(g, sh, drawA, drawCol), sh, i, j) == At(g, sh, i, j)
  {
    DropEffect(g, sh, drawA, drawCol);
  }

  /** A drop column that is rock from row 2 to the last row receives nothing:
      the buffer is unchanged. */
  lemma DropOnRockColumn(g: seq<Cell>, sh: Shape, drawA: nat, drawCol: nat)
    requires |g| == sh.Size() && sh.Valid()
    requires forall y :: 2 <= y < sh.rows ==> IsRock(At(g, sh, y, DropColumn(sh, drawCol)))
    ensures Drop(g, sh, drawA, drawCol) == g
  {
  }

  /** When it rains and the drop column has a non-rock cell from row 2 on,
      something lands. */
  lemma DropLands(g: seq<Cell>, sh: Shape, drawA: nat, drawCol: nat, y: int)
    requires |g| == sh.Size() && sh.Valid() && Raining(drawA)
    requires 2 <= y < sh.rows && !IsRock(At(g, sh, y, DropColumn(sh, drawCol)))
    ensures Drop(g, sh, drawA, drawCol) != g
  {
    var col := DropColumn(sh, drawCol);
    var first := FirstNonRock(g, sh, col, 2).value;
    var c := At(g, sh, first, col);
    assert Drop(g, sh, drawA, drawCol)[CoordsToIndex(sh, first, col)].water == AddWater(c.water, 1) != c.water;
  }

  /** Rain keeps the rock rows, so the buffer stays bounded. */
  lemma DropKeepsBounded(g: seq<Cell>, sh: Shape, drawA: nat, drawCol: nat)
    requires Bounded(g, sh)
    ensures Bounded(Drop(g, sh, drawA, drawCol), sh)
  {
    var r := Drop(g, sh, drawA, drawCol);
    DropSparesRock(g, sh, drawA, drawCol);
    forall j | 1 <= j <= sh.width ensures BorderRock(r, sh, j) {
      assert BorderRock(g, sh, j);
    }
  }
}
