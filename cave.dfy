/** One process of the simulation: its slab of `Rows` rows by `W` owned
    columns plus two ghost columns, held in a read buffer and a write buffer
    that swap roles after every step. */
module Cave {
  import opened Cells
  import opened Grid
  import opened Rules
  import opened Passes
  import opened Rain
  import opened Halo

  /** The owned cell of row i after the zeroing loop and `init`: rock in the
      two top and two bottom rows, air elsewhere. */
  function InitialCell(sh: Shape, i: int): (c: Cell)
    ensures IsRock(c) <==> (i == 0 || i == 1 || i == sh.rows - 2 || i == sh.rows - 1)
  {
    if i == 0 || i == 1 || i == sh.rows - 2 || i == sh.rows - 1 then Rock else Air
  }

  /** Rock is absorbing over a whole step: after rain, the halo receive and
      a full pass, every owned cell that was rock in the read buffer is
      stored as Rock, and the received buffer is still bounded. */
  lemma {:induction false} StepKeepsRock(g: seq<Cell>, w: seq<Cell>, sh: Shape, drawA: nat, drawCol: nat,
                                         inbox: seq<Message>, rank: nat, procs: nat, luck: Luck)
    requires Bounded(g, sh) && |w| == sh.Size() && rank < procs
    requires Deliverable(inbox, sh, rank, procs)
    ensures var halo := ReceiveInto(Drop(g, sh, drawA, drawCol), sh, inbox, rank, procs);
      && Bounded(halo, sh)
      && forall i, j :: 0 <= i < sh.rows && 1 <= j <= sh.width && IsRock(At(g, sh, i, j)) ==>
        At(Pass(halo, w, sh, luck, OwnedColumns(sh)), sh, i, j) == Rock
  {
    var rained := Drop(g, sh, drawA, drawCol);
    DropKeepsBounded(g, sh, drawA, drawCol);
    DropSparesRock(g, sh, drawA, drawCol);
    var halo := ReceiveInto(rained, sh, inbox, rank, procs);
    SameOwnedBounded(rained, halo, sh);
    PassKeepsRock(halo, w, sh, luck);
  }

  class Slab {
    const shape: Shape
    var readMatrix: array<Cell>
    var writeMatrix: array<Cell>

    ghost predicate Valid()
      reads this
    {
      && shape.Valid()
      && readMatrix != writeMatrix
      && readMatrix.Length == shape.Size() && writeMatrix.Length == shape.Size()
    }

    /** The two `new cell[Rows*(Cols/Procs+2)]` allocations. Their contents
        are not initialised, so they are given. */
    constructor (sh: Shape, initialRead: seq<Cell>, initialWrite: seq<Cell>)
      requires sh.Valid() && |initialRead| == sh.Size() && |initialWrite| == sh.Size()
      ensures Valid() && shape == sh && fresh(readMatrix) && fresh(writeMatrix)
      ensures readMatrix[..] == initialRead && writeMatrix[..] == initialWrite
    {
      shape := sh;
      readMatrix := new Cell[|initialRead|](k requires 0 <= k < |initialRead| => initialRead[k]);
      writeMatrix := new Cell[|initialWrite|](k requires 0 <= k < |initialWrite| => initialWrite[k]);
    }

    /** The zeroing loop of `main`: every owned cell of the read buffer
        becomes `all = 0`; the ghost columns keep what they held. */
    method ClearOwned()
      requires Valid()
      modifies readMatrix
      ensures forall i, j :: 0 <= i < shape.rows && 0 <= j <= shape.width + 1 ==>
        At(readMatrix[..], shape, i, j) == if 1 <= j <= shape.width then Unpack(0) else At(old(readMatrix[..]), shape, i, j)
    {
      ghost var g0 := readMatrix[..];
      var i := 0;
      while i < shape.rows
        invariant 0 <= i <= shape.rows
        invariant forall r, c :: 0 <= r < shape.rows && 0 <= c <= shape.width + 1 ==>
          At(readMatrix[..], shape, r, c) == if r < i && 1 <= c <= shape.width then Unpack(0) else At(g0, shape, r, c)
      {
        ClearRow(i);
        i := i + 1;
      }
    }

    /** One pass of the inner zeroing loop: the owned cells of row i. */
    method ClearRow(i: int)
      requires Valid() && 0 <= i < shape.rows
      modifies readMatrix
      ensures forall r, c :: 0 <= r < shape.rows && 0 <= c <= shape.width + 1 ==>
        At(readMatrix[..], shape, r, c) == if r == i && 1 <= c <= shape.width then Unpack(0) else At(old(readMatrix[..]), shape, r, c)
    {
      ghost var g0 := readMatrix[..];
      var j := 1;
      while j < shape.width + 1
        invariant 1 <= j <= shape.width + 1
        invariant forall r, c :: 0 <= r < shape.rows && 0 <= c <= shape.width + 1 ==>
          At(readMatrix[..], shape, r, c) == if r == i && 1 <= c < j then Unpack(0) else At(g0, shape, r, c)
      {
        ZeroCell(i, j);
        j := j + 1;
      }
    }

    /** `Read(i,j).all = 0`. */
    method ZeroCell(i: int, j: int)
      requires Valid() && 0 <= i < shape.rows && 0 <= j <= shape.width + 1
      modifies readMatrix
      ensures forall r, c :: 0 <= r < shape.rows && 0 <= c <= shape.width + 1 ==>
        At(readMatrix[..], shape, r, c) == if r == i && c == j then Unpack(0) else At(old(readMatrix[..]), shape, r, c)
    {
      var k := CoordsToIndex(shape, i, j);
      ghost var before := readMatrix[..];
      readMatrix[k] := Unpack(0);
      assert readMatrix[..] == before[k := Unpack(0)];
      AtUpdate(before, shape, i, j, Unpack(0));
    }

    /** `init`: sediment 6 in rows 0, Rows-1, 1 and Rows-2 of every owned
        column; the water field is not written. */
    method Init()
      requires Valid()
      modifies readMatrix
      ensures Bounded(readMatrix[..], shape)
      ensures forall i, j :: 0 <= i < shape.rows && 0 <= j <= shape.width + 1 ==>
        var before := At(old(readMatrix[..]), shape, i, j);
        At(readMatrix[..], shape, i, j)
          == if 1 <= j <= shape.width && (i == 0 || i == 1 || i == shape.rows - 2 || i == shape.rows - 1)
             then before.(sediment := 6) else before
    {
      ghost var g0 := readMatrix[..];
      var last := shape.rows - 1;
      var j := 1;
      while j < shape.width + 1
        invariant 1 <= j <= shape.width + 1
        invariant forall r, c :: 0 <= r < shape.rows && 0 <= c <= shape.width + 1 ==>
          var before := At(g0, shape, r, c);
          At(readMatrix[..], shape, r, c)
            == if 1 <= c < j && (r == 0 || r == 1 || r == last - 1 || r == last) then before.(sediment := 6) else before
      {
        SetSediment(0, j);
        SetSediment(last, j);
        SetSediment(1, j);
        SetSediment(last - 1, j);
        j := j + 1;
      }
      forall c | 1 <= c <= shape.width ensures BorderRock(readMatrix[..], shape, c) {
      }
    }

    /** `Read(i,j).sediment = 6`. */
    method SetSediment(i: int, j: int)
      requires Valid() && 0 <= i < shape.rows && 0 <= j <= shape.width + 1
      modifies readMatrix
      ensures forall r, c :: 0 <= r < shape.rows && 0 <= c <= shape.width + 1 ==>
        At(readMatrix[..], shape, r, c)
          == if r == i && c == j then At(old(readMatrix[..]), shape, r, c).(sediment := 6) else At(old(readMatrix[..]), shape, r, c)
    {
      var k := CoordsToIndex(shape, i, j);
      ghost var before := readMatrix[..];
      readMatrix[k] := readMatrix[k].(sediment := 6);
      assert readMatrix[..] == before[k := before[k].(sediment := 6)];
      AtUpdate(before, shape, i, j, before[k].(sediment := 6));
    }

    /** Lines 121-125 of `main`: the zeroing loop, then `init`. Every owned
        cell holds its initial value, and the buffer is bounded. */
    method Setup()
      requires Valid()
      modifies readMatrix
      ensures Bounded(readMatrix[..], shape)
      ensures forall i, j :: 0 <= i < shape.rows && 0 <= j <= shape.width + 1 ==>
        At(readMatrix[..], shape, i, j) == if 1 <= j <= shape.width then InitialCell(shape, i) else At(old(readMatrix[..]), shape, i, j)
    {
      ClearOwned();
      Init();
    }

    /** `swap`: the two buffers exchange roles. */
    method Swap()
      requires Valid()
      modifies this
      ensures Valid()
      ensures readMatrix == old(writeMatrix) && writeMatrix == old(readMatrix)
    {
      var tmp := readMatrix;
      readMatrix := writeMatrix;
      writeMatrix := tmp;
    }

    /** `amIRock`: a rock cell of the read buffer is stored as (0, 6) in the
        write buffer. */
    method AmIRock(i: int, j: int) returns (rock: bool)
      requires Valid() && 0 <= i < shape.rows && 0 <= j <= shape.width + 1
      modifies writeMatrix
      ensures rock <==> IsRock(At(readMatrix[..], shape, i, j))
      ensures writeMatrix[..] == if rock then old(writeMatrix[..])[CoordsToIndex(shape, i, j) := Rock] else old(writeMatrix[..])
    {
      var k := CoordsToIndex(shape, i, j);
      if readMatrix[k].sediment > 5 {
        writeMatrix[k] := writeMatrix[k].(sediment := 6);
        writeMatrix[k] := writeMatrix[k].(water := 0);
        return true;
      }
      return false;
    }

    /** `amIWater`: for a cell holding water, its write-buffer cell becomes
        `WaterRule` of its neighbourhood and its previous value, and the
        answer is 'C'; otherwise nothing is stored and the answer is 'F'. */
    method AmIWater(i: int, j: int) returns (verdict: char)
      requires Valid() && Active(readMatrix[..], shape, i, j)
      modifies writeMatrix
      ensures verdict == if At(readMatrix[..], shape, i, j).water > 0 then 'C' else 'F'
      ensures var k := CoordsToIndex(shape, i, j);
        writeMatrix[..]
          == if verdict == 'C' then old(writeMatrix[..])[k := WaterRule(WindowAt(readMatrix[..], shape, i, j), old(writeMatrix[k]))]
             else old(writeMatrix[..])
    {
      var k := CoordsToIndex(shape, i, j);
      if readMatrix[k].water == 0 {
        return 'F';
      }
      ghost var win := WindowAt(readMatrix[..], shape, i, j);
      ghost var w0 := writeMatrix[..];
      ghost var prev := writeMatrix[k];
      var r, a, rocks := Survey(i, j);
      Accrete(i, j, rocks);
      assert writeMatrix[k] == prev.(sediment := AddSediment(prev.sediment, Accretion(win))) by {
        AddSedimentTwice(prev.sediment, Constrictions(win), Accretion(win) - Constrictions(win));
      }
      assert writeMatrix[..] == w0[k := writeMatrix[k]];
      Settle(i, j, r, a);
      return 'C';
    }

    /** The rest of `amIWater` once the sediment has accreted: full
        enclosure, a rock floor, then the case of the north neighbour. */
    method Settle(i: int, j: int, r: nat, a: nat)
      requires Valid() && Active(readMatrix[..], shape, i, j)
      requires r == RockCount(WindowAt(readMatrix[..], shape, i, j)) && a == DryCount(WindowAt(readMatrix[..], shape, i, j))
      modifies writeMatrix
      ensures var k := CoordsToIndex(shape, i, j);
        writeMatrix[..] == old(writeMatrix[..])[k := SettleWater(WindowAt(readMatrix[..], shape, i, j), old(writeMatrix[k]))]
    {
      var k := CoordsToIndex(shape, i, j);
      ghost var win := WindowAt(readMatrix[..], shape, i, j);
      ghost var w0 := writeMatrix[..];
      var kN, kS := CoordsToIndex(shape, i - 1, j), CoordsToIndex(shape, i + 1, j);
      var kW, kE := CoordsToIndex(shape, i, j - 1), CoordsToIndex(shape, i, j + 1);
      var kSW, kSE := CoordsToIndex(shape, i + 1, j - 1), CoordsToIndex(shape, i + 1, j + 1);
      assert win.n == readMatrix[kN] && win.s == readMatrix[kS] && win.w == readMatrix[kW] && win.e == readMatrix[kE];
      assert win.sw == readMatrix[kSW] && win.se == readMatrix[kSE];
      if r == 8 {
        writeMatrix[k] := writeMatrix[k].(water := 1);
        writeMatrix[k] := writeMatrix[k].(sediment := AddSediment(writeMatrix[k].sediment, 1));
        assert writeMatrix[..] == w0[k := writeMatrix[k]];
        return;
      }
      if readMatrix[kS].sediment > 5 && readMatrix[kSE].sediment > 5 && readMatrix[kSW].sediment > 5 {
        writeMatrix[k] := writeMatrix[k].(water := 1);
        assert writeMatrix[..] == w0[k := writeMatrix[k]];
        return;
      }
      var caso: char;
      if readMatrix[kN].water > 0 {
        caso := 'W';
      } else {
        if readMatrix[kN].sediment < 6 || readMatrix[kS].water > 0 {
          caso := 'A';
        }
        if readMatrix[kN].sediment > 5 {
          caso := 'R';
        }
      }
      assert caso == match CasoOf(win) case WaterAbove => 'W' case AirAbove => 'A' case RockAbove => 'R';
      if caso == 'W' {
        writeMatrix[k] := writeMatrix[k].(water := AddWater(writeMatrix[k].water, 1));
        assert writeMatrix[..] == w0[k := writeMatrix[k]];
      } else if caso == 'A' {
        if writeMatrix[k].water > 0 {
          writeMatrix[k] := writeMatrix[k].(water := writeMatrix[k].water - 1);
        }
        assert writeMatrix[..] == w0[k := writeMatrix[k]];
      } else if caso == 'R' {
        if a + r == 8 && readMatrix[kW].sediment < 6 && readMatrix[kE].sediment < 6 {
          writeMatrix[k] := writeMatrix[k].(water := 1);
          assert writeMatrix[..] == w0[k := writeMatrix[k]];
        } else {
          TouchRock(i, j);
        }
      }
    }

    /** The first loop of `amIWater`: the counters `r` (rock neighbours), `a`
        (dry neighbours) and `rocks` (orthogonal rock tests that hold), and one
        unit of sediment per constriction. */
    method Survey(i: int, j: int) returns (r: nat, a: nat, rocks: nat)
      requires Valid() && Active(readMatrix[..], shape, i, j)
      modifies writeMatrix
      ensures var win := WindowAt(readMatrix[..], shape, i, j);
        && r == RockCount(win) && a == DryCount(win)
        && (rocks > 0 <==> OrthogonalRock(win))
      ensures var k := CoordsToIndex(shape, i, j); var prev := old(writeMatrix[k]);
        writeMatrix[..] == old(writeMatrix[..])[k := prev.(sediment := AddSediment(prev.sediment, Constrictions(WindowAt(readMatrix[..], shape, i, j))))]
    {
      var k := CoordsToIndex(shape, i, j);
      ghost var win := WindowAt(readMatrix[..], shape, i, j);
      ghost var w0 := writeMatrix[..];
      ghost var prev := writeMatrix[k];
      r, a, rocks := 0, 0, 0;
      var x := -1;
      while x < 2
        invariant -1 <= x <= 2
        invariant r == Tally(win, RockProbe, x) && a == Tally(win, DryProbe, x)
        invariant rocks == SideTally(win, OrthoProbe, x)
        invariant writeMatrix[k].water == prev.water
        invariant writeMatrix[k].sediment == AddSediment(prev.sediment, SideTally(win, ConstrictionProbe, x))
        invariant forall m :: 0 <= m < writeMatrix.Length && m != k ==> writeMatrix[m] == w0[m]
      {
        ghost var done, hit := SideTally(win, ConstrictionProbe, x), SideHit(win, ConstrictionProbe, x);
        ghost var before := writeMatrix[k].sediment;
        AddSedimentTwice(prev.sediment, done, hit);
        r, a, rocks := SurveyOffset(i, j, x, r, a, rocks);
        assert writeMatrix[k].sediment == AddSediment(before, hit);
        assert SideTally(win, ConstrictionProbe, x + 1) == done + hit;
        x := x + 1;
      }
      assert r == RockCount(win) && a == DryCount(win) by { RockTally(win); DryTally(win); }
      assert rocks > 0 <==> OrthogonalRock(win) by { OrthoTally(win); }
      assert SideTally(win, ConstrictionProbe, 2) == Constrictions(win) by { ConstrictionTally(win); }
      assert writeMatrix[k] == prev.(sediment := AddSediment(prev.sediment, Constrictions(win)));
      assert writeMatrix[..] == w0[k := writeMatrix[k]];
    }

    /** One pass of the first loop of `amIWater`, at column offset x: the
        inner loop over the row offsets, the orthogonal rock test, and the
        constriction test with its unit of sediment. */
    method SurveyOffset(i: int, j: int, x: int, r0: nat, a0: nat, rocks0: nat) returns (r: nat, a: nat, rocks: nat)
      requires Valid() && Active(readMatrix[..], shape, i, j) && -1 <= x <= 1
      modifies writeMatrix
      ensures var win := WindowAt(readMatrix[..], shape, i, j);
        && r == r0 + ColumnTally(win, RockProbe, x, 2) && a == a0 + ColumnTally(win, DryProbe, x, 2)
        && rocks == rocks0 + SideHit(win, OrthoProbe, x)
      ensures var k := CoordsToIndex(shape, i, j); var prev := old(writeMatrix[k]);
        writeMatrix[k] == prev.(sediment := AddSediment(prev.sediment,
          SideHit(WindowAt(readMatrix[..], shape, i, j), ConstrictionProbe, x)))
      ensures forall m :: 0 <= m < writeMatrix.Length && m != CoordsToIndex(shape, i, j) ==> writeMatrix[m] == old(writeMatrix[m])
    {
      var k := CoordsToIndex(shape, i, j);
      ghost var win := WindowAt(readMatrix[..], shape, i, j);
      ghost var w0 := writeMatrix[..];
      ghost var prev := writeMatrix[k];
      r, a := SurveyColumn(i, j, x, r0, a0);
      rocks := rocks0;
      var kSide, kVertical := CoordsToIndex(shape, i, j + x), CoordsToIndex(shape, i + x, j);
      var kDiag, kS := CoordsToIndex(shape, i - 1, j + x), CoordsToIndex(shape, i + 1, j);
      assert Nb(win, 0, x) == readMatrix[kSide] && Nb(win, x, 0) == readMatrix[kVertical];
      assert Nb(win, -1, x) == readMatrix[kDiag] && win.s == readMatrix[kS];
      if (x != 0 && readMatrix[kSide].sediment > 5) || readMatrix[kVertical].sediment > 5 {
        rocks := rocks + 1;
      }
      var f := false;
      if x != 0 && readMatrix[kDiag].sediment > 5 && readMatrix[kSide].sediment > 5 && readMatrix[kS].sediment > 5 {
        f := true;
      }
      if f {
        writeMatrix[k] := writeMatrix[k].(sediment := AddSediment(writeMatrix[k].sediment, 1));
      }
      ghost var hit := SideHit(win, ConstrictionProbe, x);
      assert hit == if f then 1 else 0;
      assert writeMatrix[k] == prev.(sediment := AddSediment(prev.sediment, hit));
    }

    /** The inner loop of the first loop of `amIWater`, over the row offsets
        at column offset x: `r` counts rock neighbours, `a` dry ones. */
    method SurveyColumn(i: int, j: int, x: int, r0: nat, a0: nat) returns (r: nat, a: nat)
      requires Valid() && Active(readMatrix[..], shape, i, j) && -1 <= x <= 1
      ensures var win := WindowAt(readMatrix[..], shape, i, j);
        r == r0 + ColumnTally(win, RockProbe, x, 2) && a == a0 + ColumnTally(win, DryProbe, x, 2)
    {
      ghost var win := WindowAt(readMatrix[..], shape, i, j);
      r, a := r0, a0;
      var y := -1;
      while y < 2
        invariant -1 <= y <= 2
        invariant r == r0 + ColumnTally(win, RockProbe, x, y)
        invariant a == a0 + ColumnTally(win, DryProbe, x, y)
      {
        var nb := readMatrix[CoordsToIndex(shape, i + y, j + x)];
        assert nb == Nb(win, y, x);
        if (x != 0 || y != 0) && nb.sediment > 5 {
          r := r + 1;
        } else if (x != 0 || y != 0) && nb.water == 0 {
          a := a + 1;
        }
        y := y + 1;
      }
    }

    /** The inner loop of case 'R', over the row offsets at column offset x:
        `rocks` counts rock neighbours again. */
    method RecountColumn(i: int, j: int, x: int, rocks0: nat) returns (rocks: nat)
      requires Valid() && Active(readMatrix[..], shape, i, j) && -1 <= x <= 1
      ensures rocks == rocks0 + ColumnTally(WindowAt(readMatrix[..], shape, i, j), RockProbe, x, 2)
    {
      ghost var win := WindowAt(readMatrix[..], shape, i, j);
      rocks := rocks0;
      var y := -1;
      while y < 2
        invariant -1 <= y <= 2
        invariant rocks == rocks0 + ColumnTally(win, RockProbe, x, y)
      {
        assert Nb(win, y, x) == readMatrix[CoordsToIndex(shape, i + y, j + x)];
        if (x != 0 || y != 0) && readMatrix[CoordsToIndex(shape, i + y, j + x)].sediment > 5 {
          rocks := rocks + 1;
        }
        y := y + 1;
      }
    }

    /** The `rocks > 0` block of `amIWater`: one unit of sediment, two more
        over a rock floor with dry, soft lower diagonals, one more with dry
        north and south and rock to a side. */
    method Accrete(i: int, j: int, rocks: nat)
      requires Valid() && Active(readMatrix[..], shape, i, j)
      requires rocks > 0 <==> OrthogonalRock(WindowAt(readMatrix[..], shape, i, j))
      modifies writeMatrix
      ensures var k := CoordsToIndex(shape, i, j); var prev := old(writeMatrix[k]);
        var win := WindowAt(readMatrix[..], shape, i, j);
        writeMatrix[..] == old(writeMatrix[..])[k := prev.(sediment := AddSediment(prev.sediment, Accretion(win) - Constrictions(win)))]
    {
      var k := CoordsToIndex(shape, i, j);
      ghost var win := WindowAt(readMatrix[..], shape, i, j);
      ghost var prev := writeMatrix[k];
      var kN, kS := CoordsToIndex(shape, i - 1, j), CoordsToIndex(shape, i + 1, j);
      var kW, kE := CoordsToIndex(shape, i, j - 1), CoordsToIndex(shape, i, j + 1);
      var kSW, kSE := CoordsToIndex(shape, i + 1, j - 1), CoordsToIndex(shape, i + 1, j + 1);
      assert win.n == readMatrix[kN] && win.s == readMatrix[kS] && win.w == readMatrix[kW] && win.e == readMatrix[kE];
      assert win.sw == readMatrix[kSW] && win.se == readMatrix[kSE];
      ghost var added := 0;
      if rocks > 0 {
        writeMatrix[k] := writeMatrix[k].(sediment := AddSediment(writeMatrix[k].sediment, 1));
        added := 1;
        if readMatrix[kS].sediment > 5 && (readMatrix[kSE].sediment < 5 && readMatrix[kSE].water == 0
          && readMatrix[kSW].sediment < 5 && readMatrix[kSW].water == 0)
        {
          AddSedimentTwice(prev.sediment, added, 2);
          writeMatrix[k] := writeMatrix[k].(sediment := AddSediment(writeMatrix[k].sediment, 2));
          added := added + 2;
        }
        if (readMatrix[kN].water == 0 && readMatrix[kS].water == 0)
          && (readMatrix[kW].sediment > 5 || readMatrix[kE].sediment > 5)
        {
          AddSedimentTwice(prev.sediment, added, 1);
          writeMatrix[k] := writeMatrix[k].(sediment := AddSediment(writeMatrix[k].sediment, 1));
          added := added + 1;
        }
      }
      assert added == Accretion(win) - Constrictions(win);
    }

    /** Case 'R' of `amIWater` past its first test: one unit of water per wet
        upper diagonal, then one unit drained (never below 0) when more than
        one neighbour is rock and the row below holds water. */
    method TouchRock(i: int, j: int)
      requires Valid() && Active(readMatrix[..], shape, i, j)
      modifies writeMatrix
      ensures var k := CoordsToIndex(shape, i, j); var prev := old(writeMatrix[k]);
        var win := WindowAt(readMatrix[..], shape, i, j);
        var w := AddWater(prev.water, DiagonalWaterAbove(win));
        writeMatrix[..] == old(writeMatrix[..])[k := prev.(water := if RockCount(win) > 1 && WaterBelow(win) then Drain(w) else w)]
    {
      var k := CoordsToIndex(shape, i, j);
      ghost var win := WindowAt(readMatrix[..], shape, i, j);
      ghost var w0 := writeMatrix[..];
      ghost var prev := writeMatrix[k];
      var rocks, air := WetAround(i, j);
      ghost var w := writeMatrix[k].water;
      if rocks > 1 && air {
        if writeMatrix[k].water > 0 {
          writeMatrix[k] := writeMatrix[k].(water := writeMatrix[k].water - 1);
        }
        assert writeMatrix[k].water == Drain(w);
      }
      assert writeMatrix[k] == prev.(water := if RockCount(win) > 1 && WaterBelow(win) then Drain(w) else w);
      assert writeMatrix[..] == w0[k := writeMatrix[k]];
    }

    /** The loop of case 'R': the rock neighbours counted again, the flag
        `air` for water in the row below, and one unit of water in the write
        buffer per wet upper diagonal. */
    method WetAround(i: int, j: int) returns (rocks: nat, air: bool)
      requires Valid() && Active(readMatrix[..], shape, i, j)
      modifies writeMatrix
      ensures var win := WindowAt(readMatrix[..], shape, i, j);
        rocks == RockCount(win) && (air <==> WaterBelow(win))
      ensures var k := CoordsToIndex(shape, i, j); var prev := old(writeMatrix[k]);
        writeMatrix[k] == prev.(water := AddWater(prev.water, DiagonalWaterAbove(WindowAt(readMatrix[..], shape, i, j))))
      ensures forall m :: 0 <= m < writeMatrix.Length && m != CoordsToIndex(shape, i, j) ==> writeMatrix[m] == old(writeMatrix[m])
    {
      var k := CoordsToIndex(shape, i, j);
      ghost var win := WindowAt(readMatrix[..], shape, i, j);
      ghost var prev := writeMatrix[k];
      rocks := 0;
      air := false;
      var x := -1;
      while x < 2
        invariant -1 <= x <= 2
        invariant rocks == Tally(win, RockProbe, x)
        invariant air <==> SideTally(win, WetBelowProbe, x) > 0
        invariant writeMatrix[k].sediment == prev.sediment
        invariant writeMatrix[k].water == AddWater(prev.water, SideTally(win, WetAboveProbe, x))
        invariant forall m :: 0 <= m < writeMatrix.Length && m != k ==> writeMatrix[m] == old(writeMatrix[m])
      {
        ghost var done, hit := SideTally(win, WetAboveProbe, x), SideHit(win, WetAboveProbe, x);
        ghost var before := writeMatrix[k].water;
        AddWaterTwice(prev.water, done, hit);
        rocks, air := TouchOffset(i, j, x, rocks, air);
        assert writeMatrix[k].water == AddWater(before, hit);
        assert SideTally(win, WetAboveProbe, x + 1) == done + hit;
        x := x + 1;
      }
      assert rocks == RockCount(win) by { RockTally(win); }
      assert air <==> WaterBelow(win) by { WetBelowTally(win); }
      assert SideTally(win, WetAboveProbe, 2) == DiagonalWaterAbove(win) by { WetAboveTally(win); }
    }

    /** One pass of the loop of case 'R', at column offset x: a unit of
        water for a wet upper diagonal, the flag `air` for water below, and
        the inner loop recounting rock. */
    method TouchOffset(i: int, j: int, x: int, rocks0: nat, air0: bool) returns (rocks: nat, air: bool)
      requires Valid() && Active(readMatrix[..], shape, i, j) && -1 <= x <= 1
      modifies writeMatrix
      ensures var win := WindowAt(readMatrix[..], shape, i, j);
        && rocks == rocks0 + ColumnTally(win, RockProbe, x, 2)
        && (air <==> air0 || SideHit(win, WetBelowProbe, x) > 0)
      ensures var k := CoordsToIndex(shape, i, j); var prev := old(writeMatrix[k]);
        writeMatrix[k] == prev.(water := AddWater(prev.water, SideHit(WindowAt(readMatrix[..], shape, i, j), WetAboveProbe, x)))
      ensures forall m :: 0 <= m < writeMatrix.Length && m != CoordsToIndex(shape, i, j) ==> writeMatrix[m] == old(writeMatrix[m])
    {
      var k := CoordsToIndex(shape, i, j);
      ghost var win := WindowAt(readMatrix[..], shape, i, j);
      var kAbove, kBelow := CoordsToIndex(shape, i - 1, j + x), CoordsToIndex(shape, i + 1, j + x);
      assert Nb(win, -1, x) == readMatrix[kAbove] && Nb(win, 1, x) == readMatrix[kBelow];
      ghost var prev := writeMatrix[k];
      ghost var hit := SideHit(win, WetAboveProbe, x);
      if x != 0 && readMatrix[kAbove].water > 0 {
        writeMatrix[k] := writeMatrix[k].(water := AddWater(writeMatrix[k].water, 1));
        assert hit == 1;
      } else {
        assert hit == 0 && AddWater(prev.water, 0) == prev.water;
      }
      assert writeMatrix[k] == prev.(water := AddWater(prev.water, hit));
      air := air0;
      if readMatrix[kBelow].water > 0 {
        air := true;
      }
      rocks := RecountColumn(i, j, x, rocks0);
    }

    /** `iAmAir`: the write-buffer cell becomes `AirRule` of its
        neighbourhood, its previous value, and the draws of `rand()`. */
    method IAmAir(i: int, j: int, draws: Draws)
      requires Valid() && Active(readMatrix[..], shape, i, j)
      modifies writeMatrix
      ensures var k := CoordsToIndex(shape, i, j);
        writeMatrix[..] == old(writeMatrix[..])[k := AirRule(WindowAt(readMatrix[..], shape, i, j), old(writeMatrix[k]), draws)]
    {
      var k := CoordsToIndex(shape, i, j);
      ghost var win := WindowAt(readMatrix[..], shape, i, j);
      ghost var w0 := writeMatrix[..];
      var kN, kS := CoordsToIndex(shape, i - 1, j), CoordsToIndex(shape, i + 1, j);
      var kW, kE := CoordsToIndex(shape, i, j - 1), CoordsToIndex(shape, i, j + 1);
      assert win.n == readMatrix[kN] && win.s == readMatrix[kS] && win.w == readMatrix[kW] && win.e == readMatrix[kE];
      if readMatrix[kN].sediment > 5 {
        var count := WetDiagonals(i, j);
        if count > 0 {
          writeMatrix[k] := writeMatrix[k].(water := AddWater(writeMatrix[k].water, count));
        } else {
          writeMatrix[k] := writeMatrix[k].(water := 0);
        }
      } else if readMatrix[kS].sediment > 5 && readMatrix[kN].water == 0 {
        var count := WetDiagonalsOverRock(i, j);
        if count > 0 {
          writeMatrix[k] := writeMatrix[k].(water := AddWater(writeMatrix[k].water, count));
        }
      } else {
        var count := LuckyDiagonals(i, j, draws);
        if readMatrix[kN].water > 1 || (readMatrix[kN].water > 0 && (readMatrix[kW].sediment > 5
          || readMatrix[kE].sediment > 5)) || count > 0
        {
          writeMatrix[k] := writeMatrix[k].(water := AddWater(writeMatrix[k].water, 1));
        } else {
          writeMatrix[k] := writeMatrix[k].(water := 0);
        }
      }
      assert writeMatrix[..] == w0[k := writeMatrix[k]];
    }

    /** The loop of `iAmAir` under rock: the upper diagonals holding water. */
    method WetDiagonals(i: int, j: int) returns (count: nat)
      requires Valid() && Active(readMatrix[..], shape, i, j)
      ensures count == DiagonalWaterAbove(WindowAt(readMatrix[..], shape, i, j))
    {
      ghost var win := WindowAt(readMatrix[..], shape, i, j);
      count := 0;
      var x := -1;
      while x < 2
        invariant x == -1 || x == 1 || x == 3
        invariant count == (if x > -1 then Ind(win.nw.water > 0) else 0) + (if x > 1 then Ind(win.ne.water > 0) else 0)
      {
        assert Nb(win, -1, x) == readMatrix[CoordsToIndex(shape, i - 1, j + x)];
        if readMatrix[CoordsToIndex(shape, i - 1, j + x)].water > 0 {
          count := count + 1;
        }
        x := x + 2;
      }
    }

    /** The loop of `iAmAir` over rock: the upper diagonals holding water
        with rock beside the cell on their side. */
    method WetDiagonalsOverRock(i: int, j: int) returns (count: nat)
      requires Valid() && Active(readMatrix[..], shape, i, j)
      ensures var win := WindowAt(readMatrix[..], shape, i, j);
        count == Ind(win.nw.water > 0 && IsRock(win.w)) + Ind(win.ne.water > 0 && IsRock(win.e))
    {
      ghost var win := WindowAt(readMatrix[..], shape, i, j);
      count := 0;
      var x := -1;
      while x < 2
        invariant x == -1 || x == 1 || x == 3
        invariant count == (if x > -1 then Ind(win.nw.water > 0 && IsRock(win.w)) else 0)
                         + (if x > 1 then Ind(win.ne.water > 0 && IsRock(win.e)) else 0)
      {
        assert Nb(win, -1, x) == readMatrix[CoordsToIndex(shape, i - 1, j + x)];
        assert Nb(win, 0, x) == readMatrix[CoordsToIndex(shape, i, j + x)];
        if readMatrix[CoordsToIndex(shape, i - 1, j + x)].water > 0 && readMatrix[CoordsToIndex(shape, i, j + x)].sediment > 5 {
          count := count + 1;
        }
        x := x + 2;
      }
    }

    /** The loop of `iAmAir` otherwise: as over rock, each side counted only
        when its draw of `rand()` is 1 modulo 5. */
    method LuckyDiagonals(i: int, j: int, draws: Draws) returns (count: nat)
      requires Valid() && Active(readMatrix[..], shape, i, j)
      ensures var win := WindowAt(readMatrix[..], shape, i, j);
        count == Ind(win.nw.water > 0 && IsRock(win.w) && Lucky(draws.west))
               + Ind(win.ne.water > 0 && IsRock(win.e) && Lucky(draws.east))
    {
      ghost var win := WindowAt(readMatrix[..], shape, i, j);
      count := 0;
      var x := -1;
      while x < 2
        invariant x == -1 || x == 1 || x == 3
        invariant count == (if x > -1 then Ind(win.nw.water > 0 && IsRock(win.w) && Lucky(draws.west)) else 0)
                         + (if x > 1 then Ind(win.ne.water > 0 && IsRock(win.e) && Lucky(draws.east)) else 0)
      {
        assert Nb(win, -1, x) == readMatrix[CoordsToIndex(shape, i - 1, j + x)];
        assert Nb(win, 0, x) == readMatrix[CoordsToIndex(shape, i, j + x)];
        if readMatrix[CoordsToIndex(shape, i - 1, j + x)].water > 0 && readMatrix[CoordsToIndex(shape, i, j + x)].sediment > 5 {
          var draw := if x < 0 then draws.west else draws.east;
          if draw % 5 == 1 {
            count := count + 1;
          }
        }
        x := x + 2;
      }
    }

    /** The body of the loops of `transFunction` and `transFunctionBorders`:
        `amIRock`, then `amIWater` unless it was rock, then `iAmAir` unless
        it answered 'C'. The cell's write-buffer value becomes `NextCell`. */
    method StepCell(i: int, j: int, draws: Draws)
      requires Valid() && Bounded(readMatrix[..], shape) && 0 <= i < shape.rows && 1 <= j <= shape.width
      modifies writeMatrix
      ensures var k := CoordsToIndex(shape, i, j);
        writeMatrix[..] == old(writeMatrix[..])[k := NextCell(readMatrix[..], shape, i, j, old(writeMatrix[k]), draws)]
    {
      var rock := AmIRock(i, j);
      if rock {
        return;
      }
      var verdict := AmIWater(i, j);
      if verdict == 'C' {
        return;
      }
      IAmAir(i, j, draws);
    }

    /** `transFunction`: every cell of the columns 2..W-1, which only read
        owned columns, row by row; `luck` gives the draws of each cell. */
    method TransFunction(luck: Luck)
      requires Valid() && Bounded(readMatrix[..], shape)
      modifies writeMatrix
      ensures writeMatrix[..] == Pass(readMatrix[..], old(writeMatrix[..]), shape, luck, InteriorColumns(shape))
    {
      ghost var w0 := writeMatrix[..];
      ghost var cols := InteriorColumns(shape);
      var i := 0;
      while i < shape.rows
        invariant 0 <= i <= shape.rows
        invariant forall r, c :: 0 <= r < shape.rows && 0 <= c <= shape.width + 1 ==>
          At(writeMatrix[..], shape, r, c)
            == if r < i && c in cols then NextCell(readMatrix[..], shape, r, c, At(w0, shape, r, c), luck(r, c)) else At(w0, shape, r, c)
      {
        var j := 2;
        while j < shape.width
          invariant 2 <= j <= shape.width
          invariant forall r, c :: 0 <= r < shape.rows && 0 <= c <= shape.width + 1 ==>
            At(writeMatrix[..], shape, r, c)
              == if (r < i && c in cols) || (r == i && 2 <= c < j)
                 then NextCell(readMatrix[..], shape, r, c, At(w0, shape, r, c), luck(r, c)) else At(w0, shape, r, c)
        {
          ghost var before := writeMatrix[..];
          StepCell(i, j, luck(i, j));
          AtUpdate(before, shape, i, j, NextCell(readMatrix[..], shape, i, j, At(before, shape, i, j), luck(i, j)));
          j := j + 1;
        }
        i := i + 1;
      }
      EqualByCells(writeMatrix[..], Pass(readMatrix[..], w0, shape, luck, cols), shape);
    }

    /** `transFunctionBorders`: the same rules on columns 1 and W, reached by
        a column loop that starts at 1 and strides by W-1. */
    method TransFunctionBorders(luck: Luck)
      requires Valid() && Bounded(readMatrix[..], shape)
      modifies writeMatrix
      ensures writeMatrix[..] == Pass(readMatrix[..], old(writeMatrix[..]), shape, luck, BorderColumns(shape))
    {
      ghost var w0 := writeMatrix[..];
      ghost var cols := BorderColumns(shape);
      var i := 0;
      while i < shape.rows
        invariant 0 <= i <= shape.rows
        invariant forall r, c :: 0 <= r < shape.rows && 0 <= c <= shape.width + 1 ==>
          At(writeMatrix[..], shape, r, c)
            == if r < i && c in cols then NextCell(readMatrix[..], shape, r, c, At(w0, shape, r, c), luck(r, c)) else At(w0, shape, r, c)
      {
        var j := 1;
        while j < shape.width + 1
          invariant j == 1 || j == shape.width || j == 2 * shape.width - 1
          decreases shape.width + 1 - j
          invariant forall r, c :: 0 <= r < shape.rows && 0 <= c <= shape.width + 1 ==>
            At(writeMatrix[..], shape, r, c)
              == if (r < i && c in cols) || (r == i && c in cols && c < j)
                 then NextCell(readMatrix[..], shape, r, c, At(w0, shape, r, c), luck(r, c)) else At(w0, shape, r, c)
        {
          ghost var before := writeMatrix[..];
          StepCell(i, j, luck(i, j));
          AtUpdate(before, shape, i, j, NextCell(readMatrix[..], shape, i, j, At(before, shape, i, j), luck(i, j)));
          j := j + (shape.width - 1);
        }
        i := i + 1;
      }
      EqualByCells(writeMatrix[..], Pass(readMatrix[..], w0, shape, luck, cols), shape);
    }

    /** `dropWater`: one unit of water on the first non-rock cell, from row 2
        down, of the drawn column, when the first draw says rain. */
    method DropWater(drawA: nat, drawCol: nat)
      requires Valid()
      modifies readMatrix
      ensures readMatrix[..] == Drop(old(readMatrix[..]), shape, drawA, drawCol)
    {
      var a := drawA % WaterPercentage;
      if a > WaterPercentage - 30 {
        var xW := drawCol % shape.width + 1;
        assert xW == DropColumn(shape, drawCol);
        var y := 2;
        while y < shape.rows
          invariant 2 <= y <= shape.rows
          invariant readMatrix[..] == old(readMatrix[..])
          invariant forall r :: 2 <= r < y ==> IsRock(At(readMatrix[..], shape, r, xW))
        {
          var k := CoordsToIndex(shape, y, xW);
          if readMatrix[k].sediment < 6 {
            ghost var before := readMatrix[..];
            FirstNonRockAt(before, shape, xW, 2, y);
            readMatrix[k] := readMatrix[k].(water := AddWater(readMatrix[k].water, 1));
            assert readMatrix[..] == before[k := before[k].(water := AddWater(before[k].water, 1))];
            return;
          }
          y := y + 1;
        }
        assert FirstNonRock(readMatrix[..], shape, xW, 2) == None;
      }
    }

    /** `sendBorders`: the messages posted, in order: column W to the right
        neighbour, column 1 to the left neighbour, as the role allows. */
    method SendBorders(rank: nat, procs: nat) returns (outbox: seq<Message>)
      requires Valid() && rank < procs
      ensures outbox == Sends(readMatrix[..], shape, rank, procs)
    {
      var rows := shape.rows;
      var first, last := CoordsToIndex(shape, 0, 1), CoordsToIndex(shape, 0, shape.width);
      assert first + rows - 1 == CoordsToIndex(shape, rows - 1, 1);
      assert last + rows - 1 == CoordsToIndex(shape, rows - 1, shape.width);
      var toRight := Post(rank, RightOf(rank, procs), RightwardTag, readMatrix[last .. last + rows]);
      var toLeft := Post(rank, LeftOf(rank), LeftwardTag, readMatrix[first .. first + rows]);
      if rank == 0 {
        outbox := toRight;
      } else if rank == procs - 1 {
        outbox := toLeft;
      } else {
        outbox := toRight + toLeft;
      }
    }

    /** `columnType` stored at column `col`. */
    method StoreColumn(col: int, payload: seq<Cell>)
      requires Valid() && 0 <= col <= shape.width + 1 && |payload| == shape.rows
      modifies readMatrix
      ensures readMatrix[..] == SetColumn(old(readMatrix[..]), shape, col, payload)
    {
      var start := CoordsToIndex(shape, 0, col);
      assert start + shape.rows - 1 == CoordsToIndex(shape, shape.rows - 1, col);
      forall r | 0 <= r < shape.rows {
        readMatrix[start + r] := payload[r];
      }
      ghost var target := SetColumn(old(readMatrix[..]), shape, col, payload);
      forall k | 0 <= k < readMatrix.Length ensures readMatrix[k] == target[k] {
        ColumnSpan(shape, col, k);
      }
      assert readMatrix[..] == target;
    }

    /** One `MPI_Recv` into column `col`. */
    method RecvColumn(inbox: seq<Message>, source: Option<nat>, rank: nat, tag: nat, col: int)
      requires Valid() && 0 <= col <= shape.width + 1 && Receivable(inbox, shape, source, rank, tag)
      modifies readMatrix
      ensures readMatrix[..] == Recv(old(readMatrix[..]), shape, inbox, source, rank, tag, col)
    {
      if source.Some? {
        var arrived := Matching(inbox, source.value, rank, tag)[0];
        StoreColumn(col, arrived.payload);
      }
    }

    /** `receiveBorders`: the right neighbour's column into ghost column W+1,
        then the left neighbour's column into ghost column 0, as the role
        allows. */
    method ReceiveBorders(inbox: seq<Message>, rank: nat, procs: nat)
      requires Valid() && rank < procs && Deliverable(inbox, shape, rank, procs)
      modifies readMatrix
      ensures readMatrix[..] == ReceiveInto(old(readMatrix[..]), shape, inbox, rank, procs)
    {
      if rank == 0 {
        RecvColumn(inbox, RightOf(rank, procs), rank, LeftwardTag, shape.width + 1);
      } else if rank == procs - 1 {
        RecvColumn(inbox, LeftOf(rank), rank, RightwardTag, 0);
      } else {
        RecvColumn(inbox, RightOf(rank, procs), rank, LeftwardTag, shape.width + 1);
        RecvColumn(inbox, LeftOf(rank), rank, RightwardTag, 0);
      }
    }

    /** The main loop up to the swap: rain, send the borders, the interior
        pass, receive the ghosts, the border pass. The read buffer ends up as
        the buffer after rain and halo, and the write buffer as one full pass
        over the owned columns against it. */
    method Compute(rank: nat, procs: nat, drawA: nat, drawCol: nat, luck: Luck, inbox: seq<Message>)
      returns (outbox: seq<Message>)
      requires Valid() && Bounded(readMatrix[..], shape) && rank < procs
      requires Deliverable(inbox, shape, rank, procs)
      modifies readMatrix, writeMatrix
      ensures var rained := Drop(old(readMatrix[..]), shape, drawA, drawCol);
        var halo := ReceiveInto(rained, shape, inbox, rank, procs);
        && Bounded(halo, shape)
        && outbox == Sends(rained, shape, rank, procs)
        && readMatrix[..] == halo
        && writeMatrix[..] == Pass(halo, old(writeMatrix[..]), shape, luck, OwnedColumns(shape))
    {
      ghost var w0 := writeMatrix[..];
      DropWater(drawA, drawCol);
      ghost var rained := readMatrix[..];
      assert Bounded(rained, shape) by { DropKeepsBounded(old(readMatrix[..]), shape, drawA, drawCol); }
      outbox := SendBorders(rank, procs);
      TransFunction(luck);
      ghost var w1 := writeMatrix[..];
      assert w1 == Pass(rained, w0, shape, luck, InteriorColumns(shape));
      ReceiveBorders(inbox, rank, procs);
      ghost var halo := readMatrix[..];
      assert writeMatrix[..] == w1;
      assert Bounded(halo, shape) by { SameOwnedBounded(rained, halo, shape); }
      TransFunctionBorders(luck);
      assert writeMatrix[..] == Pass(halo, w1, shape, luck, BorderColumns(shape));
      TwoPassesAreOne(rained, halo, w0, shape, luck);
    }

    /** One iteration of the main loop: `Compute`, then the swap. The new read
        buffer is one full pass over the owned columns against the buffer
        after rain and halo; the new write buffer is that buffer, and the
        rock rows survive. */
    method Step(rank: nat, procs: nat, drawA: nat, drawCol: nat, luck: Luck, inbox: seq<Message>)
      returns (outbox: seq<Message>)
      requires Valid() && Bounded(readMatrix[..], shape) && rank < procs
      requires Deliverable(inbox, shape, rank, procs)
      modifies this, readMatrix, writeMatrix
      ensures Valid() && readMatrix == old(writeMatrix) && writeMatrix == old(readMatrix)
      ensures var rained := Drop(old(readMatrix[..]), shape, drawA, drawCol);
        var halo := ReceiveInto(rained, shape, inbox, rank, procs);
        && Bounded(halo, shape)
        && outbox == Sends(rained, shape, rank, procs)
        && writeMatrix[..] == halo
        && readMatrix[..] == Pass(halo, old(writeMatrix[..]), shape, luck, OwnedColumns(shape))
      ensures Bounded(readMatrix[..], shape)
      ensures forall i, j :: 0 <= i < shape.rows && 1 <= j <= shape.width && IsRock(At(old(readMatrix[..]), shape, i, j)) ==>
        At(readMatrix[..], shape, i, j) == Rock
    {
      ghost var w0 := writeMatrix[..];
      StepKeepsRock(readMatrix[..], w0, shape, drawA, drawCol, inbox, rank, procs, luck);
      outbox := Compute(rank, procs, drawA, drawCol, luck, inbox);
      ghost var halo := readMatrix[..];
      ghost var next := writeMatrix[..];
      assert Bounded(next, shape) by { PassKeepsRock(halo, w0, shape, luck); }
      Swap();
      assert readMatrix[..] == next && writeMatrix[..] == halo;
    }
  }
}
