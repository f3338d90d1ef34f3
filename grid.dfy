/** The slab layout: `Rows` rows by `Cols/Procs` owned columns numbered 1..W,
    plus ghost columns 0 and W+1, linearised column-major. */
module Grid {
  import opened Cells

  datatype Option<T> = None | Some(value: T)

  /** The compile-time configuration of the source. */
  const Rows: nat := 240
  const Cols: nat := 360
  const Procs: nat := 6
  const WaterPercentage: nat := 70

  /** The shape of one slab buffer: `rows` rows, `width` owned columns. */
  datatype Shape = Shape(rows: nat, width: nat) {
    /** Four rock rows fit, and the border pass has a positive stride. */
    predicate Valid() {
      rows >= 4 && width >= 2
    }

    /** Number of cells allocated per buffer: Rows*(Cols/Procs+2). */
    function Size(): nat {
      rows * (width + 2)
    }
  }

  /** The shape every process uses. */
  const SourceShape: Shape := Shape(Rows, Cols / Procs)

  lemma SourceShapeValid()
    ensures SourceShape.Valid() && SourceShape.width == 60
    ensures Cols % Procs == 0 && Procs * SourceShape.width == Cols
  {
  }

  lemma {:induction false} MulMonotone(a: nat, b: nat, n: nat)
    requires a <= b
    ensures a * n <= b * n
  {
    assert b * n == a * n + (b - a) * n;
  }

  lemma {:induction false} DivModOf(n: nat, q: nat, r: nat)
    requires 0 <= r < n
    ensures (q * n + r) / n == q && (q * n + r) % n == r
  {
    var k := q * n + r;
    var q', r' := k / n, k % n;
    assert k == q' * n + r';
    if q' < q {
      MulMonotone(q' + 1, q, n);
      assert false;
    } else if q' > q {
      MulMonotone(q + 1, q', n);
      assert false;
    }
  }

  /** `coordsToIndex(i, j) = j*Rows + i`, for a row and a column of the buffer.
      The index lies in the allocated buffer, and row and column can be read
      back from it, so distinct cells have distinct indices. */
  function CoordsToIndex(sh: Shape, i: int, j: int): (k: nat)
    requires 0 <= i < sh.rows && 0 <= j <= sh.width + 1
    ensures k < sh.Size()
    ensures k / sh.rows == j && k % sh.rows == i
  {
    DivModOf(sh.rows, j, i);
    MulMonotone(j + 1, sh.width + 2, sh.rows);
    j * sh.rows + i
  }

  lemma CoordsInjective(sh: Shape, i: int, j: int, i': int, j': int)
    requires 0 <= i < sh.rows && 0 <= j <= sh.width + 1
    requires 0 <= i' < sh.rows && 0 <= j' <= sh.width + 1
    ensures CoordsToIndex(sh, i, j) == CoordsToIndex(sh, i', j') <==> i == i' && j == j'
  {
  }

  /** Every index of the buffer is the index of some cell. */
  lemma {:induction false} IndexCovers(sh: Shape, k: nat)
    requires sh.rows > 0 && k < sh.Size()
    ensures k % sh.rows < sh.rows && k / sh.rows <= sh.width + 1
    ensures CoordsToIndex(sh, k % sh.rows, k / sh.rows) == k
  {
    if k / sh.rows > sh.width + 1 {
      MulMonotone(sh.width + 2, k / sh.rows, sh.rows);
      assert false;
    }
  }

  /** The cell at row i, column j of a buffer. */
  function At(g: seq<Cell>, sh: Shape, i: int, j: int): Cell
    requires |g| == sh.Size() && 0 <= i < sh.rows && 0 <= j <= sh.width + 1
  {
    g[CoordsToIndex(sh, i, j)]
  }

  /** Storing into one cell changes that cell and no other. */
  lemma AtUpdate(g: seq<Cell>, sh: Shape, i: int, j: int, v: Cell)
    requires |g| == sh.Size() && 0 <= i < sh.rows && 0 <= j <= sh.width + 1
    ensures |g[CoordsToIndex(sh, i, j) := v]| == sh.Size()
    ensures forall r, c :: 0 <= r < sh.rows && 0 <= c <= sh.width + 1 ==>
      At(g[CoordsToIndex(sh, i, j) := v], sh, r, c) == if r == i && c == j then v else At(g, sh, r, c)
  {
    var k := CoordsToIndex(sh, i, j);
    var g' := g[k := v];
    forall r, c | 0 <= r < sh.rows && 0 <= c <= sh.width + 1
      ensures At(g', sh, r, c) == if r == i && c == j then v else At(g, sh, r, c)
    {
      CoordsInjective(sh, i, j, r, c);
    }
  }

  /** Two buffers that agree at every cell are equal. */
  lemma {:induction false} EqualByCells(s: seq<Cell>, t: seq<Cell>, sh: Shape)
    requires sh.rows > 0 && |s| == sh.Size() && |t| == sh.Size()
    requires forall i, j :: 0 <= i < sh.rows && 0 <= j <= sh.width + 1 ==> At(s, sh, i, j) == At(t, sh, i, j)
    ensures s == t
  {
    forall k | 0 <= k < |s| ensures s[k] == t[k] {
      IndexCovers(sh, k);
      assert At(s, sh, k % sh.rows, k / sh.rows) == At(t, sh, k % sh.rows, k / sh.rows);
    }
  }

  /** The contiguous `Rows` cells of column j, as one message of `columnType`. */
  function Column(g: seq<Cell>, sh: Shape, j: int): (col: seq<Cell>)
    requires |g| == sh.Size() && sh.rows > 0 && 0 <= j <= sh.width + 1
    ensures |col| == sh.rows
    ensures forall i :: 0 <= i < sh.rows ==> col[i] == At(g, sh, i, j)
  {
    var start := CoordsToIndex(sh, 0, j);
    assert start + sh.rows - 1 == CoordsToIndex(sh, sh.rows - 1, j);
    g[start .. start + sh.rows]
  }

  /** Column j occupies the `rows` contiguous indices from that of (0, j). */
  lemma {:induction false} ColumnSpan(sh: Shape, j: int, k: nat)
    requires sh.rows > 0 && 0 <= j <= sh.width + 1 && k < sh.Size()
    ensures var start := CoordsToIndex(sh, 0, j);
      (k / sh.rows == j <==> start <= k < start + sh.rows)
      && (k / sh.rows == j ==> k % sh.rows == k - start)
  {
    IndexCovers(sh, k);
    var start := CoordsToIndex(sh, 0, j);
    var i, c := k % sh.rows, k / sh.rows;
    assert k == c * sh.rows + i && start == j * sh.rows;
    if c < j {
      MulMonotone(c + 1, j, sh.rows);
      assert (c + 1) * sh.rows == c * sh.rows + sh.rows;
      assert k < start;
    } else if c > j {
      MulMonotone(j + 1, c, sh.rows);
      assert (j + 1) * sh.rows == j * sh.rows + sh.rows;
      assert k >= start + sh.rows;
    }
  }

  /** The buffer after column j has been overwritten with `col`. */
  function SetColumn(g: seq<Cell>, sh: Shape, j: int, col: seq<Cell>): (r: seq<Cell>)
    requires |g| == sh.Size() && sh.rows > 0 && 0 <= j <= sh.width + 1 && |col| == sh.rows
    ensures |r| == |g|
    ensures forall i, c :: 0 <= i < sh.rows && 0 <= c <= sh.width + 1 ==>
      At(r, sh, i, c) == if c == j then col[i] else At(g, sh, i, c)
  {
    seq(|g|, k requires 0 <= k < |g| => if k / sh.rows == j then col[k % sh.rows] else g[k])
  }

  /** Rows 0, 1, Rows-2 and Rows-1 of column j are rock. */
  predicate BorderRock(g: seq<Cell>, sh: Shape, j: int)
    requires |g| == sh.Size() && sh.Valid() && 0 <= j <= sh.width + 1
  {
    && IsRock(At(g, sh, 0, j)) && IsRock(At(g, sh, 1, j))
    && IsRock(At(g, sh, sh.rows - 2, j)) && IsRock(At(g, sh, sh.rows - 1, j))
  }

  /** The invariant set up by `init`: the two top and two bottom rows of every
      owned column are rock. */
  predicate Bounded(g: seq<Cell>, sh: Shape) {
    && sh.Valid() && |g| == sh.Size()
    && forall j :: 1 <= j <= sh.width ==> BorderRock(g, sh, j)
  }

  /** A non-rock owned cell lies at least two rows away from the top and the
      bottom, so every neighbour read at i-1 and i+1 is a row of the buffer. */
  lemma NonRockRows(g: seq<Cell>, sh: Shape, i: int, j: int)
    requires Bounded(g, sh) && 0 <= i < sh.rows && 1 <= j <= sh.width
    requires !IsRock(At(g, sh, i, j))
    ensures 2 <= i <= sh.rows - 3
  {
    assert BorderRock(g, sh, j);
  }

  /** The two buffers agree on every owned column 1..W. */
  predicate SameOwned(g: seq<Cell>, g': seq<Cell>, sh: Shape)
    requires |g| == sh.Size() && |g'| == sh.Size()
  {
    forall i, j :: 0 <= i < sh.rows && 1 <= j <= sh.width ==> At(g, sh, i, j) == At(g', sh, i, j)
  }

  lemma SameOwnedBounded(g: seq<Cell>, g': seq<Cell>, sh: Shape)
    requires Bounded(g, sh) && |g'| == sh.Size() && SameOwned(g, g', sh)
    ensures Bounded(g', sh)
  {
    forall j | 1 <= j <= sh.width ensures BorderRock(g', sh, j) {
      assert BorderRock(g, sh, j);
    }
  }

  /** Global column `c` (0-based, as the gathered picture numbers them) is
      the owned column `owner.1` of process `owner.0`. */
  function OwnerOf(c: nat, width: nat): (owner: (nat, nat))
    requires width > 0
    ensures 1 <= owner.1 <= width && owner.0 * width + owner.1 - 1 == c
  {
    (c / width, c % width + 1)
  }

  /** The decomposition covers each global column exactly once: no other
      (process, owned column) pair stands for `c`. */
  lemma {:induction false} OwnerUnique(c: nat, width: nat, p: nat, j: nat)
    requires width > 0 && 1 <= j <= width && p * width + j - 1 == c
    ensures (p, j) == OwnerOf(c, width)
  {
    DivModOf(width, p, j - 1);
  }
}
