# CaveMPI slab engine in Dafny

This project models one process of the CaveMPI cellular automaton (`cave.cpp`).
The cave is a grid of `Rows` x `Cols` cells split into `Procs` vertical slabs.
Each slab owns `W = Cols/Procs` columns, numbered 1..W. It also keeps two ghost
columns, 0 and W+1, which hold copies of its neighbours' outermost columns.

- **Cell.** Each cell is a byte holding a 2-bit `water` field and a 3-bit
  `sediment` field. A cell with sediment above 5 is rock.
- **Buffers.** A read buffer and a write buffer, both linearised column-major
  by `coordsToIndex(i, j) = j*Rows + i`, swap roles after every step.
- **One step**, in order:
  1. rain falls on the read buffer;
  2. the slab posts its border columns to its neighbours;
  3. the interior columns are computed;
  4. the ghost columns are received;
  5. the border columns are computed;
  6. the buffers are swapped.

Computing a cell applies three rules in priority order: `amIRock`, then
`amIWater`, then `iAmAir`. Each rule reads only the read buffer around the
cell and its own write-buffer cell (`amIWater` tests `Write(i,j).water > 0`).
It writes only that cell of the write buffer, and usually updates the
value already stored there.

Modules:

- `Cells`: the cell, with field arithmetic that wraps modulo 4 (water) and
  modulo 8 (sediment), and a byte codec.
- `Grid`: the slab shape, `coordsToIndex`, cell and column access, and the
  invariant `Bounded`. `init` establishes it: the two top and two bottom rows
  of every owned column are rock.
- `Rules`: the rules of one cell as pure functions of its 3x3 neighbourhood,
  the old write-buffer cell and the `rand()` draws.
- `Passes`: a pass of the rules over a set of columns, and how the two passes
  compose.
- `Rain`: the effect of `dropWater`.
- `Halo`: the halo exchange as a pure function over the sequence of all
  slabs, with messages matched to receives by source, destination and tag.
- `Cave`: the class `Slab`, with the two buffers as arrays. Each of its
  methods follows the imperative code of one C++ function, loops included,
  and is proved against the functions above.

Every quantity the source leaves undefined is a parameter:

- the initial contents of both buffers, including the write buffer, which is
  never cleared;
- the ghost columns at the two ends of the process line;
- the values of `rand()`.

Throughout, "cell k" is the cell at `CoordsToIndex(i, j)` in a method's
contract.

## Model

| member | source | states |
|---|---|---|
| Cells.AddWaterTwice | cave.cpp:387 | two successive wrapping adds to the water field are one add of the sum |
| Cells.AddSedimentTwice | cave.cpp:353-364 | successive wrapping sediment increments are one increment of the sum |
| Cells.FieldsWrap | cave.cpp:27-31 | below the field width an add is exact, at the width it wraps to the start (3+1 = 0 for water, 7+1 = 0 for sediment), and the guarded decrement stays in range and lowers a positive value by one |
| Cells.Pack | cave.cpp:27-31 | the byte of a cell has its three high bits clear |
| Cells.UnpackPack | cave.cpp:27-31 | reading the fields back from a cell's byte gives the cell |
| Cells.PackUnpack | cave.cpp:27-31 | every byte with clear high bits is the byte of the cell read from it |
| Cells.AddWater | cave.cpp:27-31 | `water += k` on the 2-bit field: the sum modulo 4 |
| Cells.AddSediment | cave.cpp:27-31 | `sediment += k` on the 3-bit field: the sum modulo 8 |
| Cells.Drain | cave.cpp:391-392 | `if (water > 0) water -= 1` |
| Cells.Unpack | cave.cpp:27-31 | the two fields read from the byte `all`: water from the two low bits, sediment from the next three |
| Cells.ZeroByteIsAir | cave.cpp:123 | `all = 0` reads back as water 0, sediment 0, which is not rock; (0, 6) is rock |
| Grid.SourceShapeValid | cave.cpp:8-13 | the configured 240 x 360 grid over 6 processes gives slabs of 60 owned columns that satisfy the shape's requirements (at least 4 rows, W >= 2) and tile the grid exactly |
| Grid.CoordsToIndex | cave.cpp:69 | `j*Rows + i` is below `Rows*(W+2)`, the allocated size, and decodes back to row `i` and column `j` |
| Grid.CoordsInjective | cave.cpp:69 | two cells share an index if and only if they are the same cell |
| Grid.IndexCovers | cave.cpp:33-34 | every index of the allocated buffer is the index of a cell: row `k % Rows`, column `k / Rows` |
| Grid.AtUpdate | cave.cpp:64-65 | storing into one cell changes that cell and no other |
| Grid.Column | cave.cpp:88 | the `Rows` contiguous cells that start at `(0, j)` are the cells of column `j`, top to bottom |
| Grid.ColumnSpan | cave.cpp:88 | column `j` occupies exactly the indices `j*Rows .. j*Rows + Rows - 1` |
| Grid.SetColumn | cave.cpp:244 | after a column is received into column `j`, that column holds the payload and every other cell is unchanged |
| Grid.NonRockRows | cave.cpp:256-265 | in a bounded buffer a non-rock owned cell lies in rows 2..Rows-3, so its neighbours at rows i-1 and i+1 exist |
| Grid.SameOwnedBounded | cave.cpp:239-254 | changing only the ghost columns keeps the buffer bounded |
| Grid.OwnerOf | cave.cpp:140-141 | global column `c` is owned column `j` (1..W) of process `p` with `p*W + j - 1 = c` |
| Grid.OwnerUnique | cave.cpp:140-141 | no other process and column owns global column `c` |
| Rules.WindowAt | cave.cpp:64 | a non-rock owned cell of a bounded buffer lies in rows 2..Rows-3, and `Read(i+y, j+x)` for offsets in -1..1 is the window's neighbour at `(y, x)` |
| Rules.CasoOf | cave.cpp:378-383 | `caso`: 'W' when north holds water, otherwise 'R' when north is rock, otherwise 'A' |
| Rules.RockContact | cave.cpp:395-421 | case 'R': water 1 when every neighbour is dry or rock and west and east are not rock; otherwise the stored water plus one unit per wet upper diagonal, drained by one when more than one neighbour is rock and the row below holds water |
| Rules.SettleWater | cave.cpp:366-424 | from the accreted cell: water 1 and one more unit of sediment when enclosed, water 1 on a rock floor, otherwise the water of the `caso` case |
| Rules.WaterRule | cave.cpp:332-427 | `amIWater` for a cell holding water: the stored sediment plus the accretion, then `SettleWater` |
| Rules.AirWater | cave.cpp:429-464 | the water `iAmAir` stores in each of its three branches (rock north; rock south under dry north; otherwise, with the draws) |
| Rules.AirRule | cave.cpp:429-464 | `iAmAir`: the stored cell with its water replaced by `AirWater` and its sediment kept |
| Rules.Transition | cave.cpp:272-290 | the dispatch of a pass: Rock for a rock cell, `WaterRule` for a cell holding water, `AirRule` otherwise |
| Rules.NextCell | cave.cpp:321-330 | Rock for a rock cell without reading its neighbours, otherwise `Transition` of its 3x3 window |
| Rules.WestGhostRead | cave.cpp:431-438 | for an air cell of column 1 under rock, with a dry north-east neighbour and no stored water, the water stored is 1 exactly when the cell of ghost column 0 in the row above holds water |
| Rules.EastGhostRead | cave.cpp:431-438 | the same for column W and ghost column W+1 |
| Rules.RockAbsorbing | cave.cpp:321-330 | a rock cell is stored as exactly (0, 6), whatever the write buffer held, and that is rock |
| Rules.NextCellLocal | cave.cpp:332-464 | the next value of a cell depends on the read buffer only through its 3x3 neighbourhood |
| Rules.FullEnclosure | cave.cpp:356-371 | water with rock on all eight sides stops with water 1 and the stale sediment raised by 4, or by 5 when north and south hold no water (modulo 8) |
| Rules.FloorPools | cave.cpp:372-376 | water on a rock floor (south, south-west and south-east), when not enclosed, stops with water 1 and its accreted sediment |
| Rules.FloorPoolFormsWetRock | cave.cpp:372-375 | a water cell on a rock floor with stored sediment 5 is stored as (1, 6): rock that holds water, not (0, 6) |
| Rules.NorthDecides | cave.cpp:378-423 | past the two exits: one more unit of water under water; one less, never below 0, under air; case 'R' under rock; the sediment is the accreted one |
| Rules.AirFromAbove | cave.cpp:429-464 | an air cell keeps the write buffer's sediment, and with no water in the row above and none stored, it gets no water |
| Rules.AirIgnoresWaterBelow | cave.cpp:429-464 | the water of the row below never affects an air cell |
| Rules.RockTally | cave.cpp:339-346 | the counter `r` at the end of the nested loops is the number of rock neighbours |
| Rules.DryTally | cave.cpp:339-346 | the counter `a` at the end of the nested loops is the number of dry, non-rock neighbours |
| Rules.OrthoTally | cave.cpp:347-348 | for a non-rock cell, the counter `rocks` is positive exactly when some orthogonal neighbour is rock |
| Rules.ConstrictionTally | cave.cpp:349-353 | the flag-`f` increments add up to the number of sides where the upper diagonal, the side and the cell below are all rock |
| Rules.WetAboveTally | cave.cpp:404-407 | the increments of case 'R' add up to the number of upper diagonals holding water |
| Rules.WetBelowTally | cave.cpp:408-409 | the flag `air` is set exactly when some cell of the row below holds water |
| Passes.ColumnRange | cave.cpp:271 | the set holds exactly the columns of the half-open loop range |
| Passes.BorderLoopVisits | cave.cpp:298 | with W >= 2 the stride W-1 is positive, and the loop visits exactly columns 1 and W, in that order |
| Passes.ColumnsPartition | cave.cpp:267-319 | the interior columns 2..W-1 and the border columns {1, W} are disjoint and cover exactly the owned columns 1..W; neither set contains a ghost column |
| Passes.Pass | cave.cpp:267-319 | after a pass over a set of owned columns, each of those cells holds its next value from the read buffer and its own previous content, and every other cell is unchanged |
| Passes.PassCompose | cave.cpp:267-319 | two passes over disjoint columns against the same read buffer are one pass over their union |
| Passes.InteriorIgnoresGhosts | cave.cpp:267-292 | the interior pass gives the same buffer before and after the ghost columns arrive |
| Passes.TwoPassesAreOne | cave.cpp:148-157 | an interior pass before the receive followed by a border pass after it equals one pass over all owned columns against the received buffer |
| Passes.PassKeepsRock | cave.cpp:321-330 | a full pass keeps every rock cell rock, so the next read buffer is bounded again |
| Rain.Raining | cave.cpp:469-470 | `a = rand() % waterPercentage` exceeds `waterPercentage - 30` |
| Rain.Drop | cave.cpp:466-481 | when it rains, one more unit of water on the first non-rock cell of the drawn column from row 2; otherwise, or with no such cell, the buffer unchanged |
| Rain.DropColumn | cave.cpp:473 | `rand() % W + 1` is always an owned column |
| Rain.FirstNonRock | cave.cpp:474-479 | the scan finds the first row from the start row whose sediment is below 6, every cell it passed is rock, and it finds none exactly when the rest of the column is rock |
| Rain.FirstNonRockAt | cave.cpp:474-479 | a non-rock row with only rock above it, from the start row, is the row the scan returns |
| Rain.DropEffect | cave.cpp:466-481 | a cell changes if and only if the draw says rain, it lies in the drawn column, and it is the first non-rock cell from row 2; it then gains one unit of water (mod 4) and keeps its sediment |
| Rain.DropSparesRock | cave.cpp:475 | rain never changes a rock cell |
| Rain.DropOnRockColumn | cave.cpp:474-480 | when the drawn column is rock from row 2 down, nothing changes |
| Rain.DropLands | cave.cpp:469-479 | when it rains and the drawn column has a non-rock cell from row 2 down, the buffer changes |
| Rain.DropKeepsBounded | cave.cpp:466-481 | rain keeps the buffer bounded |
| Halo.RoleOf | cave.cpp:222-228 | only rank 0 takes the leftmost branch, whose condition comes first; the last rank takes the rightmost branch when it is not rank 0 |
| Halo.Post | cave.cpp:229 | one `MPI_Isend`: one message to an existing neighbour, nothing to `MPI_PROC_NULL` |
| Halo.Sends | cave.cpp:219-237 | the messages of `sendBorders`, by role: column W to the right with tag 1, column 1 to the left with tag 0, the rightward one first on an interior process |
| Halo.Matching | cave.cpp:244-251 | the posted messages an `MPI_Recv` with that source and tag on that process can match, in posting order |
| Halo.SendsReadOwned | cave.cpp:219-237 | what a process sends depends on its owned columns only |
| Halo.SendsGoToNeighbours | cave.cpp:219-237 | every posted message comes from the sender, goes to a neighbour and carries one column: tag 1 means column W to the right, tag 0 means column 1 to the left |
| Halo.SendsSource | cave.cpp:219-237 | every message a process posts names it as the source |
| Halo.SendsMatching | cave.cpp:219-237 | among one process's messages, its right neighbour's receive with tag 1 sees only column W, and its left neighbour's receive with tag 0 sees only column 1 |
| Halo.MatchingMembers | cave.cpp:244-251 | a receive can match exactly the posted messages with its source, destination and tag |
| Halo.Recv | cave.cpp:244 | a receive from `MPI_PROC_NULL` changes nothing; otherwise the target column holds the payload of the earliest matching message, and every other column is unchanged |
| Halo.RecvCell | cave.cpp:244 | cell by cell, the same |
| Halo.ReceiveInto | cave.cpp:239-254 | `receiveBorders` leaves the owned columns untouched |
| Halo.ReceiveCellsLeftmost | cave.cpp:242-245 | on the leftmost process only ghost column W+1 changes, to the right neighbour's tag-0 message, and only if that neighbour exists |
| Halo.ReceiveCellsRightmost | cave.cpp:246-247 | on the rightmost process only ghost column 0 changes, to the left neighbour's tag-1 message |
| Halo.ReceiveCellsInterior | cave.cpp:248-252 | on an interior process, ghost column 0 changes to the left neighbour's tag-1 message, column W+1 to the right neighbour's tag-0 message, and nothing else changes |
| Halo.ReceiveCells | cave.cpp:239-254 | the three roles together, cell by cell |
| Halo.OutboxNoneMatch | cave.cpp:244-251 | a receive naming one source matches nothing that another process posted |
| Halo.FlattenMatchingNone | cave.cpp:244-251 | a receive naming process q matches nothing among the messages of processes posted before q |
| Halo.FlattenMatchingPosted | cave.cpp:244-251 | once process q has posted, a receive naming q sees q's messages and nothing earlier |
| Halo.FlattenMatchingOwn | cave.cpp:244-251 | among the messages of any number of processes that includes q, a receive naming q sees exactly q's messages |
| Halo.Outboxes | cave.cpp:219-237 | one outbox per process |
| Halo.OutboxesSourced | cave.cpp:219-237 | every outbox holds only messages from its own process |
| Halo.NetworkMatching | cave.cpp:219-254 | among everything posted in a step, a receive naming process q sees just what q posted, and nothing if q has not posted |
| Halo.FromRight | cave.cpp:250 | process p's receive from its right neighbour matches exactly one message, that neighbour's column 1 |
| Halo.FromLeft | cave.cpp:251 | process p's receive from its left neighbour matches exactly one message, that neighbour's column W |
| Halo.NetworkDelivers | cave.cpp:239-254 | no receive of the exchange blocks forever |
| Halo.Exchange | cave.cpp:219-254 | the exchange keeps the number of slabs, their size and every owned column |
| Halo.HaloCorrect | cave.cpp:219-254 | after the exchange, slab p's column 0 holds slab p-1's column W, its column W+1 holds slab p+1's column 1, the end ghost columns of the line keep their content, and every owned cell is unchanged |
| Halo.EveryMessageReceived | cave.cpp:219-254 | every message posted in a step goes to an existing process, from the neighbour that process's receive with that tag names, and carries tag 0 or tag 1 |
| Cave.StepKeepsRock | cave.cpp:131-157 | over rain, the halo receive and a full pass, every owned cell that was rock is stored as Rock, and the received buffer stays bounded |
| Cave.InitialCell | cave.cpp:121-126 | after set-up an owned cell is rock exactly in rows 0, 1, Rows-2 and Rows-1 |
| Cave.Slab.constructor | cave.cpp:33-34 | two fresh, distinct buffers of `Rows*(W+2)` cells with the given, uninitialised contents |
| Cave.Slab.ClearOwned | cave.cpp:121-123 | every owned cell of the read buffer reads as `all = 0`; the ghost columns keep their content |
| Cave.Slab.ClearRow | cave.cpp:122-123 | the owned cells of one row read as `all = 0`, and nothing else changes |
| Cave.Slab.ZeroCell | cave.cpp:123 | one cell reads as `all = 0`, and nothing else changes |
| Cave.Slab.Init | cave.cpp:256-265 | rows 0, 1, Rows-2 and Rows-1 of every owned column get sediment 6 with their water untouched; the buffer is bounded, and nothing else changes |
| Cave.Slab.SetSediment | cave.cpp:260 | one cell gets sediment 6, and nothing else changes |
| Cave.Slab.Setup | cave.cpp:120-126 | after the zeroing loop and `init`, every owned cell holds its initial value, the ghost columns keep their content, and the buffer is bounded |
| Cave.Slab.Swap | cave.cpp:38 | the buffers exchange roles |
| Cave.Slab.AmIRock | cave.cpp:321-330 | the answer is true exactly for a rock cell; then the write-buffer cell becomes (0, 6), otherwise nothing changes |
| Cave.Slab.AmIWater | cave.cpp:332-427 | the answer is 'C' exactly for a cell holding water, and then only cell k changes, to the water rule of its neighbourhood and its previous value; for 'F' nothing changes |
| Cave.Slab.Survey | cave.cpp:339-354 | the first loop yields the rock count, the dry count and whether an orthogonal neighbour is rock, and adds one unit of sediment per constriction to cell k only |
| Cave.Slab.SurveyOffset | cave.cpp:341-353 | one column offset of that loop adds its rock and dry hits and its orthogonal rock condition, and its constriction unit to cell k only |
| Cave.Slab.SurveyColumn | cave.cpp:341-346 | the inner loop adds the rock and dry hits of one column offset |
| Cave.Slab.Accrete | cave.cpp:356-365 | the `rocks > 0` block adds the rest of the accretion to the sediment of cell k: one unit, two more over a rock cell below with both lower diagonals dry and of sediment below 5, one more with dry north and south and rock to a side |
| Cave.Slab.Settle | cave.cpp:366-424 | the two exits and the `caso` switch store the settle rule of cell k's neighbourhood and its accreted value |
| Cave.Slab.TouchRock | cave.cpp:402-421 | case 'R' past its first condition: one unit of water per wet upper diagonal, then one unit drained (never below 0) when more than one neighbour is rock and the row below holds water |
| Cave.Slab.WetAround | cave.cpp:402-417 | the loop of case 'R' recounts the rock neighbours, sets `air` exactly when the row below holds water, and adds the wet upper diagonals to cell k's water only |
| Cave.Slab.TouchOffset | cave.cpp:404-417 | one column offset of that loop |
| Cave.Slab.RecountColumn | cave.cpp:411-416 | the inner loop of case 'R' adds the rock hits of one column offset |
| Cave.Slab.IAmAir | cave.cpp:429-464 | only cell k changes, to the air rule of its neighbourhood, its previous value and the draws |
| Cave.Slab.WetDiagonals | cave.cpp:433-436 | the count is the number of upper diagonals holding water |
| Cave.Slab.WetDiagonalsOverRock | cave.cpp:446-449 | the count is the number of upper diagonals holding water with rock beside the cell on their side |
| Cave.Slab.LuckyDiagonals | cave.cpp:455-458 | the same, each side counted only when its draw is 1 modulo 5 |
| Cave.Slab.StepCell | cave.cpp:272-290 | `amIRock`, then `amIWater`, then `iAmAir` store the cell's next value into cell k only |
| Cave.Slab.TransFunction | cave.cpp:267-292 | the write buffer becomes the pass over the interior columns 2..W-1 |
| Cave.Slab.TransFunctionBorders | cave.cpp:294-319 | the write buffer becomes the pass over columns 1 and W |
| Cave.Slab.DropWater | cave.cpp:466-481 | the read buffer becomes the effect of rain for the two draws |
| Cave.Slab.SendBorders | cave.cpp:219-237 | the messages posted are those of the process's role, in posting order |
| Cave.Slab.StoreColumn | cave.cpp:244 | a received column lands in the target column, and nothing else changes |
| Cave.Slab.RecvColumn | cave.cpp:244 | one blocking receive |
| Cave.Slab.ReceiveBorders | cave.cpp:239-254 | the read buffer becomes its image under the halo receive for the process's role |
| Cave.Slab.Compute | cave.cpp:133-157 | one step up to the swap: the read buffer is the rained and received buffer, and it is bounded; the posted messages are those of the rained buffer; the write buffer is one full pass over the owned columns against it |
| Cave.Slab.Step | cave.cpp:131-171 | one iteration of the main loop, the swap included: the new read buffer is that full pass and is bounded again, and every owned cell that was rock is Rock in it; the new write buffer is the rained and received buffer |

## Left out

- MPI itself: the cartesian topology set-up, `MPI_Gather`, `MPI_Bcast`,
  `MPI_Barrier` and the datatype set-up are foreign library code. The
  sends of one step are a sequence of posted messages, and each receive
  takes the earliest matching one.
- The requests of `MPI_Isend` are overwritten and never waited on. Buffer
  reuse while a send is in flight is concurrency, so it is not modelled.
- Rank numbering: `rank` is the rank in `MPI_COMM_WORLD` (cave.cpp:81), but
  it is compared with `rank_border_left` and `rank_border_right`, which are
  ranks in the cartesian communicator `cave` (cave.cpp:98-103), and that
  communicator may reorder ranks. The model assumes the two ranks are equal
  and takes that rank as the process's position on the line.
- Process count: `rank_border_right` is the process at coordinate `Procs-1`,
  a compile-time constant (cave.cpp:101), while the line has as many
  processes as the job (cave.cpp:82, 96). `Halo.RoleOf`, `Halo.Exchange` and
  `Halo.HaloCorrect` take the last process of the line as the rightmost, so
  they assume the job runs exactly `Procs` processes. With more, the process
  at `Procs-1` sends nothing rightward and its right neighbour's receive
  never completes; with fewer, `MPI_Cart_rank` is given a coordinate outside
  the grid. Neither case is modelled.
- Allegro: the display, the event queue, `print`, and the close-event loop
  together with its `stop` broadcast. These are graphics and input.
- `rand()` and `srand(time(NULL) + rank)`: the drawn values are parameters.
  The model does not represent the order in which the stream is consumed.
- `MPI_Wtime` and `printf`: timing and console output.
- The byte layout of the bit-field union is implementation-defined. `Pack`
  and `Unpack` assume water in the two low bits and sediment in the next
  three. Nothing else in the model depends on that assumption.
- The main loop's step counter and `Steps` bound: the model proves one
  iteration, `Step`, and needs no induction over steps.
- Cave.Slab.AmIWater: requires a non-rock owned cell of a bounded buffer.
  The source calls `amIWater` only after `amIRock` has answered false, and
  only inside the passes. `StepCell` models that call site and needs no such
  precondition.
- Cave.Slab.IAmAir: requires a non-rock owned cell of a bounded buffer, for
  the same reason.
- Cave.Slab.Compute: the inbox is a parameter that must let every receive
  complete. `Halo.NetworkDelivers` proves that the messages all processes
  post in one step satisfy this.
- The ghost columns at the two ends of the line, column 0 of the leftmost
  slab and column W+1 of the rightmost, are never written: the zeroing loop
  covers columns 1..W only (cave.cpp:121-123) and no receive targets them
  (`Halo.HaloCorrect` keeps them). They hold the constructor's arbitrary
  contents. They ARE read: the border pass computes column 1 on the leftmost
  slab and column W on the rightmost (cave.cpp:298-317), and `amIWater` and
  `iAmAir` read the neighbours at `j-1` and `j+1`. The model keeps that
  contents as a parameter, so results there depend on memory the source
  never initialises (`Rules.WestGhostRead`, `Rules.EastGhostRead`). The
  model does not say what value the authors meant those columns to hold.

Facts about the code that the model follows:

- `caso` is assigned on every path (cave.cpp:378-383). It is 'W' when north
  holds water, otherwise 'R' when north is rock, otherwise 'A'. The Dafny
  copy settles it by definite assignment.
- A fully enclosed water cell need not become rock (cave.cpp:366-371). Its
  sediment is the stale write-buffer value raised by 4, or by 5, modulo 8
  (`Rules.FullEnclosure`).
- New rock can hold water. Water pooling on a rock floor (cave.cpp:372-375)
  or fully enclosed (cave.cpp:366-370) is stored with water 1, and its
  sediment may reach 6. The cell is then rock with water 1, not (0, 6),
  until the next pass stores (0, 6) over it (`Rules.FloorPoolFormsWetRock`).
  Meanwhile its water counts for its neighbours: an air cell diagonally
  below it can take water from it, and a water cell below it gets `caso`
  'W'. The model proves only that a cell that is rock in the read buffer is
  (0, 6) after the following pass (`Cave.StepKeepsRock`).
- The write buffer is never cleared. `amIRock` overwrites both fields of
  its cell (cave.cpp:325-326), but `amIWater` and `iAmAir` update the stored
  value with `+=`, `-=` and `++`. After the swap, that stored value is the
  previous step's read buffer after `dropWater` and the halo receive
  (`Cave.Slab.Step`). So the previous write-buffer cell is an input of every
  rule.
