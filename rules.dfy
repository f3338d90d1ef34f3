/** The transition rule of one cell, as a function of the 3x3 neighbourhood
    in the read buffer and of the cell's stale value in the write buffer
    (`Write(i,j)`), which the rules update with `+=` rather than overwrite. */
module Rules {
  import opened Cells
  import opened Grid

  /** The 3x3 neighbourhood of a cell; row i-1 is north, row i+1 south. */
  datatype Window = Window(nw: Cell, n: Cell, ne: Cell,
                           w: Cell, c: Cell, e: Cell,
                           sw: Cell, s: Cell, se: Cell)

  /** `Read(i+y, j+x)`: the neighbour at row offset y and column offset x. */
  function Nb(win: Window, y: int, x: int): Cell
    requires -1 <= y <= 1 && -1 <= x <= 1
  {
    if y == -1 then (if x == -1 then win.nw else if x == 0 then win.n else win.ne)
    else if y == 0 then (if x == -1 then win.w else if x == 0 then win.c else win.e)
    else (if x == -1 then win.sw else if x == 0 then win.s else win.se)
  }

  /** An owned, non-rock cell of a bounded buffer: the only cells whose
      neighbourhood the rules read. */
  predicate Active(g: seq<Cell>, sh: Shape, i: int, j: int) {
    && Bounded(g, sh) && 0 <= i < sh.rows && 1 <= j <= sh.width
    && !IsRock(At(g, sh, i, j))
  }

  /** The neighbourhood of an active cell. Rows i-1 and i+1 and columns j-1
      and j+1 are cells of the buffer. */
  function WindowAt(g: seq<Cell>, sh: Shape, i: int, j: int): (win: Window)
    requires Active(g, sh, i, j)
    ensures 2 <= i <= sh.rows - 3
    ensures forall y, x :: -1 <= y <= 1 && -1 <= x <= 1 ==> Nb(win, y, x) == At(g, sh, i + y, j + x)
  {
    NonRockRows(g, sh, i, j);
    Window(At(g, sh, i - 1, j - 1), At(g, sh, i - 1, j), At(g, sh, i - 1, j + 1),
           At(g, sh, i, j - 1), At(g, sh, i, j), At(g, sh, i, j + 1),
           At(g, sh, i + 1, j - 1), At(g, sh, i + 1, j), At(g, sh, i + 1, j + 1))
  }

  function Ind(b: bool): nat {
    if b then 1 else 0
  }

  /** `r`: the number of the eight neighbours that are rock. */
  function RockCount(win: Window): nat {
    Ind(IsRock(win.nw)) + Ind(IsRock(win.n)) + Ind(IsRock(win.ne)) + Ind(IsRock(win.w))
    + Ind(IsRock(win.e)) + Ind(IsRock(win.sw)) + Ind(IsRock(win.s)) + Ind(IsRock(win.se))
  }

  /** Not rock and without water. */
  predicate IsDry(c: Cell) {
    !IsRock(c) && c.water == 0
  }

  /** `a`: the number of the eight neighbours that are dry. */
  function DryCount(win: Window): nat {
    Ind(IsDry(win.nw)) + Ind(IsDry(win.n)) + Ind(IsDry(win.ne)) + Ind(IsDry(win.w))
    + Ind(IsDry(win.e)) + Ind(IsDry(win.sw)) + Ind(IsDry(win.s)) + Ind(IsDry(win.se))
  }

  /** Some orthogonal neighbour is rock (the counter `rocks` is positive). */
  predicate OrthogonalRock(win: Window) {
    IsRock(win.n) || IsRock(win.s) || IsRock(win.w) || IsRock(win.e)
  }

  /** The sides (west, east) where the diagonal above, the side and the cell
      below are all rock. */
  function Constrictions(win: Window): nat {
    Ind(IsRock(win.nw) && IsRock(win.w) && IsRock(win.s))
    + Ind(IsRock(win.ne) && IsRock(win.e) && IsRock(win.s))
  }

  /** Rock below with both lower diagonals dry and of sediment below 5. */
  predicate PoolBonus(win: Window) {
    && IsRock(win.s)
    && win.se.sediment < 5 && win.se.water == 0
    && win.sw.sediment < 5 && win.sw.water == 0
  }

  /** North and south without water, and rock to one side. */
  predicate SideBonus(win: Window) {
    win.n.water == 0 && win.s.water == 0 && (IsRock(win.w) || IsRock(win.e))
  }

  /** The total added to the sediment before the early exits. */
  function Accretion(win: Window): nat {
    Constrictions(win) + if OrthogonalRock(win) then 1 + 2 * Ind(PoolBonus(win)) + Ind(SideBonus(win)) else 0
  }

  predicate Enclosed(win: Window) {
    RockCount(win) == 8
  }

  /** South, south-west and south-east are rock. */
  predicate OnFloor(win: Window) {
    IsRock(win.s) && IsRock(win.se) && IsRock(win.sw)
  }

  /** `caso`: how the cell relates to the cell above it. */
  datatype Caso = WaterAbove | RockAbove | AirAbove

  function CasoOf(win: Window): Caso {
    if win.n.water > 0 then WaterAbove else if IsRock(win.n) then RockAbove else AirAbove
  }

  /** The number of upper diagonals holding water. */
  function DiagonalWaterAbove(win: Window): nat {
    Ind(win.nw.water > 0) + Ind(win.ne.water > 0)
  }

  /** The flag `air`: some cell of the row below holds water. */
  predicate WaterBelow(win: Window) {
    win.sw.water > 0 || win.s.water > 0 || win.se.water > 0
  }

  /** The water of case 'R', starting from the write buffer's water `w`. */
  function RockContact(win: Window, w: Water): Water {
    if DryCount(win) + RockCount(win) == 8 && !IsRock(win.w) && !IsRock(win.e) then 1
    else
      var w' := AddWater(w, DiagonalWaterAbove(win));
      if RockCount(win) > 1 && WaterBelow(win) then Drain(w') else w'
  }

  /** The part of `amIWater` after the accretion, from the stored cell `acc`:
      the two early exits, then the case chosen by the north relation. */
  function SettleWater(win: Window, acc: Cell): Cell {
    if Enclosed(win) then Cell(1, AddSediment(acc.sediment, 1))
    else if OnFloor(win) then Cell(1, acc.sediment)
    else match CasoOf(win)
      case WaterAbove => Cell(AddWater(acc.water, 1), acc.sediment)
      case AirAbove => Cell(Drain(acc.water), acc.sediment)
      case RockAbove => Cell(RockContact(win, acc.water), acc.sediment)
  }

  /** `amIWater` for a cell holding water; `prev` is `Write(i,j)` before the call. */
  function WaterRule(win: Window, prev: Cell): Cell {
    SettleWater(win, prev.(sediment := AddSediment(prev.sediment, Accretion(win))))
  }

  /** The values `rand()` returns in `iAmAir` for the west (x = -1) and the
      east (x = +1) side; only `% 5 == 1` matters. */
  datatype Draws = Draws(west: nat, east: nat)

  predicate Lucky(d: nat) {
    d % 5 == 1
  }

  /** The water `iAmAir` leaves, starting from the write buffer's water `w`. */
  function AirWater(win: Window, w: Water, draws: Draws): Water {
    if IsRock(win.n) then
      var count := DiagonalWaterAbove(win);
      if count > 0 then AddWater(w, count) else 0
    else if IsRock(win.s) && win.n.water == 0 then
      var count := Ind(win.nw.water > 0 && IsRock(win.w)) + Ind(win.ne.water > 0 && IsRock(win.e));
      if count > 0 then AddWater(w, count) else w
    else
      var count := Ind(win.nw.water > 0 && IsRock(win.w) && Lucky(draws.west))
                 + Ind(win.ne.water > 0 && IsRock(win.e) && Lucky(draws.east));
      if win.n.water > 1 || (win.n.water > 0 && (IsRock(win.w) || IsRock(win.e))) || count > 0
      then AddWater(w, 1) else 0
  }

  /** `iAmAir`: only the water field of `Write(i,j)` is stored. */
  function AirRule(win: Window, prev: Cell, draws: Draws): Cell {
    Cell(AirWater(win, prev.water, draws), prev.sediment)
  }

  /** The priority order of the passes: rock, then water, then air. */
  function Transition(win: Window, prev: Cell, draws: Draws): Cell {
    if IsRock(win.c) then Rock
    else if win.c.water > 0 then WaterRule(win, prev)
    else AirRule(win, prev, draws)
  }

  /** The next value of `Write(i,j)` for an owned cell of a bounded buffer.
      A rock cell is decided without looking at its neighbours. */
  function NextCell(g: seq<Cell>, sh: Shape, i: int, j: int, prev: Cell, draws: Draws): Cell
    requires Bounded(g, sh) && 0 <= i < sh.rows && 1 <= j <= sh.width
  {
    if IsRock(At(g, sh, i, j)) then Rock else Transition(WindowAt(g, sh, i, j), prev, draws)
  }

  /** Rock is absorbing: a rock cell is set to exactly (0, 6), which is rock. */
  lemma RockAbsorbing(g: seq<Cell>, sh: Shape, i: int, j: int, prev: Cell, draws: Draws)
    requires Bounded(g, sh) && 0 <= i < sh.rows && 1 <= j <= sh.width
    requires IsRock(At(g, sh, i, j))
    ensures NextCell(g, sh, i, j, prev, draws) == Cell(0, 6)
    ensures IsRock(NextCell(g, sh, i, j, prev, draws))
  {
  }

  /** The frame of one cell: the next value depends on the read buffer only
      through the 3x3 neighbourhood of (i, j). */
  lemma {:induction false} NextCellLocal(g: seq<Cell>, g': seq<Cell>, sh: Shape, i: int, j: int, prev: Cell, draws: Draws)
    requires Bounded(g, sh) && Bounded(g', sh) && 0 <= i < sh.rows && 1 <= j <= sh.width
    requires forall r, c :: i - 1 <= r <= i + 1 && j - 1 <= c <= j + 1 && 0 <= r < sh.rows ==>
      At(g, sh, r, c) == At(g', sh, r, c)
    ensures NextCell(g, sh, i, j, prev, draws) == NextCell(g', sh, i, j, prev, draws)
  {
    if !IsRock(At(g, sh, i, j)) {
      var win, win' := WindowAt(g, sh, i, j), WindowAt(g', sh, i, j);
      forall y, x | -1 <= y <= 1 && -1 <= x <= 1 ensures Nb(win, y, x) == Nb(win', y, x) {
        assert At(g, sh, i + y, j + x) == At(g', sh, i + y, j + x);
      }
      assert win.nw == Nb(win, -1, -1) && win.n == Nb(win, -1, 0) && win.ne == Nb(win, -1, 1);
      assert win.w == Nb(win, 0, -1) && win.c == Nb(win, 0, 0) && win.e == Nb(win, 0, 1);
      assert win.sw == Nb(win, 1, -1) && win.s == Nb(win, 1, 0) && win.se == Nb(win, 1, 1);
      assert win == win';
    }
  }

  /** Full enclosure: water with rock on all eight sides is stored with water 1
      and its stale sediment raised by 4, or 5 when north and south are dry;
      it turns to rock only if that sum passes 5 modulo 8. */
  lemma {:induction false} FullEnclosure(win: Window, prev: Cell, draws: Draws)
    requires !IsRock(win.c) && win.c.water > 0 && Enclosed(win)
    ensures Transition(win, prev, draws)
      == Cell(1, AddSediment(prev.sediment, 4 + Ind(win.n.water == 0 && win.s.water == 0)))
  {
    assert IsRock(win.nw) && IsRock(win.n) && IsRock(win.ne) && IsRock(win.w);
    assert IsRock(win.e) && IsRock(win.sw) && IsRock(win.s) && IsRock(win.se);
    assert Constrictions(win) == 2 && !PoolBonus(win);
    assert Accretion(win) == 3 + Ind(SideBonus(win));
    AddSedimentTwice(prev.sediment, Accretion(win), 1);
  }

  /** Drainage: water over a rock floor (south, south-west, south-east) that is
      not enclosed is stored with water 1 and only its accreted sediment. */
  lemma FloorPools(win: Window, prev: Cell, draws: Draws)
    requires !IsRock(win.c) && win.c.water > 0 && !Enclosed(win) && OnFloor(win)
    ensures Transition(win, prev, draws) == Cell(1, AddSediment(prev.sediment, Accretion(win)))
  {
  }

  /** New rock can hold water: a water cell pooling on a rock floor whose
      stored sediment the accretion lifts to 6 is stored as rock with water 1,
      not as (0, 6). Only the next pass, through `amIRock`, dries it. */
  lemma FloorPoolFormsWetRock(draws: Draws)
    ensures var win := Window(Air, Air, Air, Air, Cell(1, 0), Air, Rock, Rock, Rock);
      var next := Transition(win, Cell(0, 5), draws);
      next == Cell(1, 6) && IsRock(next) && next != Rock
  {
  }

  /** Past the two early exits the water moves by the north relation: one more
      unit under water, one less (never below 0) under air, case 'R' under rock. */
  lemma NorthDecides(win: Window, prev: Cell, draws: Draws)
    requires !IsRock(win.c) && win.c.water > 0 && !Enclosed(win) && !OnFloor(win)
    ensures var next := Transition(win, prev, draws);
      && next.sediment == AddSediment(prev.sediment, Accretion(win))
      && (win.n.water > 0 ==> next.water == AddWater(prev.water, 1))
      && (win.n.water == 0 && !IsRock(win.n) ==> next.water == Drain(prev.water) && next.water <= prev.water)
      && (win.n.water == 0 && IsRock(win.n) ==> next.water == RockContact(win, prev.water))
  {
  }

  /** An air cell keeps the sediment of `Write(i,j)` and takes water only from
      the row above: without water there and in `Write(i,j)`, it stays dry. */
  lemma {:induction false} AirFromAbove(win: Window, prev: Cell, draws: Draws)
    requires !IsRock(win.c) && win.c.water == 0
    ensures Transition(win, prev, draws).sediment == prev.sediment
    ensures win.nw.water == 0 && win.n.water == 0 && win.ne.water == 0 && prev.water == 0 ==>
      Transition(win, prev, draws).water == 0
  {
  }

  /** The water of the row below never reaches an air cell: two neighbourhoods
      that differ only in the water of the lower row give the same result. */
  lemma AirIgnoresWaterBelow(win: Window, win': Window, prev: Cell, draws: Draws)
    requires !IsRock(win.c) && win.c.water == 0 && win'.c == win.c
    requires win'.nw == win.nw && win'.n == win.n && win'.ne == win.ne && win'.w == win.w && win'.e == win.e
    requires win'.s.sediment == win.s.sediment
    ensures Transition(win, prev, draws) == Transition(win', prev, draws)
  {
  }

  /** Column 1 reads ghost column 0: for an air cell under rock, with a dry
      north-east neighbour and no water stored, the water it gets is decided
      by the cell of column 0 in the row above. On the leftmost process
      nothing ever writes that column. */
  lemma WestGhostRead(g: seq<Cell>, sh: Shape, i: int, prev: Cell, draws: Draws)
    requires Bounded(g, sh) && 1 <= i < sh.rows
    requires !IsRock(At(g, sh, i, 1)) && At(g, sh, i, 1).water == 0
    requires IsRock(At(g, sh, i - 1, 1)) && At(g, sh, i - 1, 2).water == 0 && prev.water == 0
    ensures NextCell(g, sh, i, 1, prev, draws).water == Ind(At(g, sh, i - 1, 0).water > 0)
  {
  }

  /** Column W reads ghost column W+1 in the same way. On the rightmost
      process nothing ever writes that column. */
  lemma EastGhostRead(g: seq<Cell>, sh: Shape, i: int, prev: Cell, draws: Draws)
    requires Bounded(g, sh) && 1 <= i < sh.rows
    requires !IsRock(At(g, sh, i, sh.width)) && At(g, sh, i, sh.width).water == 0
    requires IsRock(At(g, sh, i - 1, sh.width)) && At(g, sh, i - 1, sh.width - 1).water == 0 && prev.water == 0
    ensures NextCell(g, sh, i, sh.width, prev, draws).water == Ind(At(g, sh, i - 1, sh.width + 1).water > 0)
  {
  }

  // The counters of amIWater's loops, in the order the loops visit the
  // neighbourhood: x (the column offset) outermost, y (the row offset) inner.

  /** What the nested neighbourhood loops count. */
  datatype CellProbe = RockProbe | DryProbe

  /** One test of the nested loop at (y, x); the centre never counts. */
  function Hit(win: Window, probe: CellProbe, y: int, x: int): nat
    requires -1 <= y <= 1 && -1 <= x <= 1
  {
    var nb := Nb(win, y, x);
    match probe
    case RockProbe => Ind((x != 0 || y != 0) && IsRock(nb))
    case DryProbe => Ind((x != 0 || y != 0) && !IsRock(nb) && nb.water == 0)
  }

  /** The hits at column offset x for row offsets -1 .. yEnd-1. */
  function ColumnTally(win: Window, probe: CellProbe, x: int, yEnd: int): nat
    requires -1 <= x <= 1 && -1 <= yEnd <= 2
    decreases yEnd + 1
  {
    if yEnd == -1 then 0 else ColumnTally(win, probe, x, yEnd - 1) + Hit(win, probe, yEnd - 1, x)
  }

  /** The hits at column offsets -1 .. xEnd-1. */
  function Tally(win: Window, probe: CellProbe, xEnd: int): nat
    requires -1 <= xEnd <= 2
    decreases xEnd + 1
  {
    if xEnd == -1 then 0 else Tally(win, probe, xEnd - 1) + ColumnTally(win, probe, xEnd - 1, 2)
  }

  /** What the loops over the column offset alone test. */
  datatype SideProbe = OrthoProbe | ConstrictionProbe | WetAboveProbe | WetBelowProbe

  function SideHit(win: Window, probe: SideProbe, x: int): nat
    requires -1 <= x <= 1
  {
    match probe
    case OrthoProbe => Ind((x != 0 && IsRock(Nb(win, 0, x))) || IsRock(Nb(win, x, 0)))
    case ConstrictionProbe => Ind(x != 0 && IsRock(Nb(win, -1, x)) && IsRock(Nb(win, 0, x)) && IsRock(win.s))
    case WetAboveProbe => Ind(x != 0 && Nb(win, -1, x).water > 0)
    case WetBelowProbe => Ind(Nb(win, 1, x).water > 0)
  }

  function SideTally(win: Window, probe: SideProbe, xEnd: int): nat
    requires -1 <= xEnd <= 2
    decreases xEnd + 1
  {
    if xEnd == -1 then 0 else SideTally(win, probe, xEnd - 1) + SideHit(win, probe, xEnd - 1)
  }

  lemma {:induction false} ColumnTallyFull(win: Window, probe: CellProbe, x: int)
    requires -1 <= x <= 1
    ensures ColumnTally(win, probe, x, 2) == Hit(win, probe, -1, x) + Hit(win, probe, 0, x) + Hit(win, probe, 1, x)
  {
    assert ColumnTally(win, probe, x, 0) == Hit(win, probe, -1, x);
  }

  lemma {:induction false} TallyFull(win: Window, probe: CellProbe)
    ensures Tally(win, probe, 2)
      == Hit(win, probe, -1, -1) + Hit(win, probe, 0, -1) + Hit(win, probe, 1, -1)
       + Hit(win, probe, -1, 0) + Hit(win, probe, 0, 0) + Hit(win, probe, 1, 0)
       + Hit(win, probe, -1, 1) + Hit(win, probe, 0, 1) + Hit(win, probe, 1, 1)
  {
    assert Tally(win, probe, 0) == ColumnTally(win, probe, -1, 2);
    ColumnTallyFull(win, probe, -1);
    ColumnTallyFull(win, probe, 0);
    ColumnTallyFull(win, probe, 1);
  }

  lemma {:induction false} SideTallyFull(win: Window, probe: SideProbe)
    ensures SideTally(win, probe, 2) == SideHit(win, probe, -1) + SideHit(win, probe, 0) + SideHit(win, probe, 1)
  {
    assert SideTally(win, probe, 0) == SideHit(win, probe, -1);
  }

  /** The counter `r` of the nested loops, run to the end, is the rock count. */
  lemma {:induction false} RockTally(win: Window)
    ensures Tally(win, RockProbe, 2) == RockCount(win)
  {
    TallyFull(win, RockProbe);
  }

  /** The counter `a` of the nested loops, run to the end, is the dry count. */
  lemma {:induction false} DryTally(win: Window)
    ensures Tally(win, DryProbe, 2) == DryCount(win)
  {
    TallyFull(win, DryProbe);
  }

  /** The constriction increments, over the whole loop, are `Constrictions`. */
  lemma {:induction false} ConstrictionTally(win: Window)
    ensures SideTally(win, ConstrictionProbe, 2) == Constrictions(win)
  {
    SideTallyFull(win, ConstrictionProbe);
  }

  /** The wet-above increments of case 'R' are `DiagonalWaterAbove`. */
  lemma {:induction false} WetAboveTally(win: Window)
    ensures SideTally(win, WetAboveProbe, 2) == DiagonalWaterAbove(win)
  {
    SideTallyFull(win, WetAboveProbe);
  }

  /** The flag `air` is raised exactly when the row below holds water. */
  lemma {:induction false} WetBelowTally(win: Window)
    ensures SideTally(win, WetBelowProbe, 2) > 0 <==> WaterBelow(win)
  {
    SideTallyFull(win, WetBelowProbe);
  }

  /** For a non-rock centre, the counter `rocks` is positive exactly when an
      orthogonal neighbour is rock. */
  lemma {:induction false} OrthoTally(win: Window)
    ensures !IsRock(win.c) ==> (SideTally(win, OrthoProbe, 2) > 0 <==> OrthogonalRock(win))
  {
    SideTallyFull(win, OrthoProbe);
  }
}
