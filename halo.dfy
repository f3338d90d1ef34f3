/** The halo exchange of `sendBorders` and `receiveBorders` across the 1-D
    non-periodic process line. Every process posts its outermost owned columns
    to its neighbours, then receives the neighbours' columns into its ghost
    columns 0 and W+1. A neighbour that does not exist (`MPI_PROC_NULL` at
    either end of the line) is `None`: sending to it or receiving from it does
    nothing. */
module Halo {
  import opened Cells
  import opened Grid

  /** Tag of a column travelling to the left neighbour. */
  const LeftwardTag: nat := 0
  /** Tag of a column travelling to the right neighbour. */
  const RightwardTag: nat := 1

  /** Which branch of `sendBorders`/`receiveBorders` a process takes. */
  datatype Role = Leftmost | Rightmost | Interior

  /** `rank == rank_border_left` is tested first, so a line of one process
      takes the leftmost branch. */
  function RoleOf(rank: nat, procs: nat): (role: Role)
    requires rank < procs
    ensures role == Leftmost <==> rank == 0
    ensures role == Rightmost <==> rank != 0 && rank == procs - 1
  {
    if rank == 0 then Leftmost else if rank == procs - 1 then Rightmost else Interior
  }

  /** `left` from `MPI_Cart_shift(cave, 0, 1, &left, &right)`. */
  function LeftOf(rank: nat): Option<nat> {
    if rank > 0 then Some(rank - 1) else None
  }

  /** `right` from `MPI_Cart_shift(cave, 0, 1, &left, &right)`. */
  function RightOf(rank: nat, procs: nat): Option<nat> {
    if rank + 1 < procs then Some(rank + 1) else None
  }

  datatype Message = Message(source: nat, dest: nat, tag: nat, payload: seq<Cell>)

  /** One `MPI_Isend`; a send to `MPI_PROC_NULL` posts nothing. */
  function Post(source: nat, dest: Option<nat>, tag: nat, payload: seq<Cell>): seq<Message> {
    if dest.Some? then [Message(source, dest.value, tag, payload)] else []
  }

  /** The messages `sendBorders` posts, in posting order: column W to the
      right with the rightward tag, column 1 to the left with the leftward tag,
      the rightward one first on an interior process. */
  function Sends(g: seq<Cell>, sh: Shape, rank: nat, procs: nat): seq<Message>
    requires |g| == sh.Size() && sh.Valid() && rank < procs
  {
    var toRight := Post(rank, RightOf(rank, procs), RightwardTag, Column(g, sh, sh.width));
    var toLeft := Post(rank, LeftOf(rank), LeftwardTag, Column(g, sh, 1));
    match RoleOf(rank, procs)
    case Leftmost => toRight
    case Rightmost => toLeft
    case Interior => toRight + toLeft
  }

  /** What a process sends depends on its owned columns only. */
  lemma SendsReadOwned(g: seq<Cell>, g': seq<Cell>, sh: Shape, rank: nat, procs: nat)
    requires |g| == sh.Size() && |g'| == sh.Size() && sh.Valid() && rank < procs
    requires SameOwned(g, g', sh)
    ensures Sends(g, sh, rank, procs) == Sends(g', sh, rank, procs)
  {
    assert Column(g, sh, 1) == Column(g', sh, 1);
    assert Column(g, sh, sh.width) == Column(g', sh, sh.width);
  }

  /** Every message a process posts goes to a neighbour, and its tag names
      the direction it travels in. */
  lemma {:induction false} SendsGoToNeighbours(g: seq<Cell>, sh: Shape, rank: nat, procs: nat)
    requires |g| == sh.Size() && sh.Valid() && rank < procs
    ensures forall m :: m in Sends(g, sh, rank, procs) ==>
      && m.source == rank && |m.payload| == sh.rows
      && (m.tag == RightwardTag ==> Some(m.dest) == RightOf(rank, procs) && m.payload == Column(g, sh, sh.width))
      && (m.tag == LeftwardTag ==> Some(m.dest) == LeftOf(rank) && m.payload == Column(g, sh, 1))
      && (m.tag == RightwardTag || m.tag == LeftwardTag)
  {
  }

  /** The messages of `msgs` an `MPI_Recv(source, tag)` on `dest` can match,
      in posting order. */
  function Matching(msgs: seq<Message>, source: nat, dest: nat, tag: nat): seq<Message> {
    if msgs == [] then []
    else
      var m := msgs[0];
      (if m.source == source && m.dest == dest && m.tag == tag then [m] else [])
        + Matching(msgs[1..], source, dest, tag)
  }

  /** The matching messages are exactly the posted ones with that source,
      destination and tag. */
  lemma {:induction false} MatchingMembers(msgs: seq<Message>, source: nat, dest: nat, tag: nat)
    ensures forall m :: m in Matching(msgs, source, dest, tag) <==> m in msgs && m.source == source && m.dest == dest && m.tag == tag
  {
    if msgs != [] {
      MatchingMembers(msgs[1..], source, dest, tag);
      assert msgs == [msgs[0]] + msgs[1..];
    }
  }

  lemma {:induction false} MatchingConcat(a: seq<Message>, b: seq<Message>, source: nat, dest: nat, tag: nat)
    ensures Matching(a + b, source, dest, tag) == Matching(a, source, dest, tag) + Matching(b, source, dest, tag)
  {
    if a == [] {
      assert a + b == b;
    } else {
      assert (a + b)[0] == a[0];
      assert (a + b)[1..] == a[1..] + b;
      MatchingConcat(a[1..], b, source, dest, tag);
    }
  }

  lemma MatchingSingle(m: Message, source: nat, dest: nat, tag: nat)
    ensures Matching([m], source, dest, tag)
         == if m.source == source && m.dest == dest && m.tag == tag then [m] else []
  {
    assert [m][1..] == [];
  }

  /** Among the messages of one process, the receive of its left neighbour
      sees just the column W it sent rightward, and the receive of its right
      neighbour just the column 1 it sent leftward. */
  lemma {:induction false} SendsMatching(g: seq<Cell>, sh: Shape, q: nat, procs: nat)
    requires |g| == sh.Size() && sh.Valid() && q < procs
    ensures q + 1 < procs ==>
      Matching(Sends(g, sh, q, procs), q, q + 1, RightwardTag) == [Message(q, q + 1, RightwardTag, Column(g, sh, sh.width))]
    ensures q > 0 ==>
      Matching(Sends(g, sh, q, procs), q, q - 1, LeftwardTag) == [Message(q, q - 1, LeftwardTag, Column(g, sh, 1))]
  {
    var toRight := Post(q, RightOf(q, procs), RightwardTag, Column(g, sh, sh.width));
    var toLeft := Post(q, LeftOf(q), LeftwardTag, Column(g, sh, 1));
    if q + 1 < procs {
      MatchingSingle(toRight[0], q, q + 1, RightwardTag);
      if q > 0 {
        MatchingSingle(toLeft[0], q, q + 1, RightwardTag);
        MatchingConcat(toRight, toLeft, q, q + 1, RightwardTag);
      }
    }
    if q > 0 {
      MatchingSingle(toLeft[0], q, q - 1, LeftwardTag);
      if q + 1 < procs {
        MatchingSingle(toRight[0], q, q - 1, LeftwardTag);
        MatchingConcat(toRight, toLeft, q, q - 1, LeftwardTag);
      }
    }
  }

  /** A blocking receive from `source` can complete: `MPI_PROC_NULL`, or a
      posted message of one column. */
  predicate Receivable(msgs: seq<Message>, sh: Shape, source: Option<nat>, dest: nat, tag: nat) {
    source.None? ||
    var ms := Matching(msgs, source.value, dest, tag);
    |ms| > 0 && |ms[0].payload| == sh.rows
  }

  /** One `MPI_Recv` into column `col`: the earliest matching message's
      payload, or nothing from `MPI_PROC_NULL`. */
  function Recv(g: seq<Cell>, sh: Shape, msgs: seq<Message>, source: Option<nat>, dest: nat, tag: nat, col: int): (r: seq<Cell>)
    requires |g| == sh.Size() && sh.Valid() && 0 <= col <= sh.width + 1
    requires Receivable(msgs, sh, source, dest, tag)
    ensures |r| == |g|
    ensures forall i, c :: 0 <= i < sh.rows && 0 <= c <= sh.width + 1 && c != col ==> At(r, sh, i, c) == At(g, sh, i, c)
    ensures source.None? ==> r == g
    ensures source.Some? ==> Column(r, sh, col) == Matching(msgs, source.value, dest, tag)[0].payload
  {
    if source.None? then g else SetColumn(g, sh, col, Matching(msgs, source.value, dest, tag)[0].payload)
  }

  lemma RecvCell(g: seq<Cell>, sh: Shape, msgs: seq<Message>, source: Option<nat>, dest: nat, tag: nat, col: int, i: int, j: int)
    requires |g| == sh.Size() && sh.Valid() && 0 <= col <= sh.width + 1
    requires Receivable(msgs, sh, source, dest, tag)
    requires 0 <= i < sh.rows && 0 <= j <= sh.width + 1
    ensures At(Recv(g, sh, msgs, source, dest, tag, col), sh, i, j)
         == if j == col && source.Some? then Matching(msgs, source.value, dest, tag)[0].payload[i] else At(g, sh, i, j)
  {
    if j == col && source.Some? {
      var r := Recv(g, sh, msgs, source, dest, tag, col);
      assert Column(r, sh, col)[i] == At(r, sh, i, col);
    }
  }

  /** Every receive `receiveBorders` posts on `rank` can complete. */
  predicate Deliverable(msgs: seq<Message>, sh: Shape, rank: nat, procs: nat)
    requires rank < procs
  {
    var fromRight := Receivable(msgs, sh, RightOf(rank, procs), rank, LeftwardTag);
    var fromLeft := Receivable(msgs, sh, LeftOf(rank), rank, RightwardTag);
    match RoleOf(rank, procs)
    case Leftmost => fromRight
    case Rightmost => fromLeft
    case Interior => fromRight && fromLeft
  }

  /** The read buffer after `receiveBorders`: the column from the right
      neighbour (leftward tag) into ghost column W+1, then the column from the
      left neighbour (rightward tag) into ghost column 0. The owned columns
      are untouched. */
  function ReceiveInto(g: seq<Cell>, sh: Shape, msgs: seq<Message>, rank: nat, procs: nat): (r: seq<Cell>)
    requires |g| == sh.Size() && sh.Valid() && rank < procs
    requires Deliverable(msgs, sh, rank, procs)
    ensures |r| == |g| && SameOwned(g, r, sh)
  {
    match RoleOf(rank, procs)
    case Leftmost => Recv(g, sh, msgs, RightOf(rank, procs), rank, LeftwardTag, sh.width + 1)
    case Rightmost => Recv(g, sh, msgs, LeftOf(rank), rank, RightwardTag, 0)
    case Interior =>
      var g1 := Recv(g, sh, msgs, RightOf(rank, procs), rank, LeftwardTag, sh.width + 1);
      Recv(g1, sh, msgs, LeftOf(rank), rank, RightwardTag, 0)
  }

  /** `receiveBorders` on the leftmost process, one cell. */
  lemma ReceiveCellsLeftmost(g: seq<Cell>, sh: Shape, msgs: seq<Message>, rank: nat, procs: nat, i: int, j: int)
    requires |g| == sh.Size() && sh.Valid() && rank < procs
    requires Deliverable(msgs, sh, rank, procs)
    requires 0 <= i < sh.rows && 0 <= j <= sh.width + 1
    requires RoleOf(rank, procs) == Leftmost
    ensures At(ReceiveInto(g, sh, msgs, rank, procs), sh, i, j)
         == if j == sh.width + 1 && rank + 1 < procs then Matching(msgs, rank + 1, rank, LeftwardTag)[0].payload[i]
            else At(g, sh, i, j)
  {
    RecvCell(g, sh, msgs, RightOf(rank, procs), rank, LeftwardTag, sh.width + 1, i, j);
  }

  /** `receiveBorders` on the rightmost process, one cell. */
  lemma ReceiveCellsRightmost(g: seq<Cell>, sh: Shape, msgs: seq<Message>, rank: nat, procs: nat, i: int, j: int)
    requires |g| == sh.Size() && sh.Valid() && rank < procs
    requires Deliverable(msgs, sh, rank, procs)
    requires 0 <= i < sh.rows && 0 <= j <= sh.width + 1
    requires RoleOf(rank, procs) == Rightmost
    ensures At(ReceiveInto(g, sh, msgs, rank, procs), sh, i, j)
         == if j == 0 then Matching(msgs, rank - 1, rank, RightwardTag)[0].payload[i]
            else At(g, sh, i, j)
  {
    RecvCell(g, sh, msgs, LeftOf(rank), rank, RightwardTag, 0, i, j);
  }

  /** `receiveBorders` on an interior process, one cell. */
  lemma ReceiveCellsInterior(g: seq<Cell>, sh: Shape, msgs: seq<Message>, rank: nat, procs: nat, i: int, j: int)
    requires |g| == sh.Size() && sh.Valid() && rank < procs
    requires Deliverable(msgs, sh, rank, procs)
    requires 0 <= i < sh.rows && 0 <= j <= sh.width + 1
    requires RoleOf(rank, procs) == Interior
    ensures At(ReceiveInto(g, sh, msgs, rank, procs), sh, i, j)
         == if j == 0 && rank > 0 then Matching(msgs, rank - 1, rank, RightwardTag)[0].payload[i]
            else if j == sh.width + 1 && rank + 1 < procs then Matching(msgs, rank + 1, rank, LeftwardTag)[0].payload[i]
            else At(g, sh, i, j)
  {
    assert LeftOf(rank) == Some(rank - 1) && RightOf(rank, procs) == Some(rank + 1);
    var g1 := Recv(g, sh, msgs, RightOf(rank, procs), rank, LeftwardTag, sh.width + 1);
    RecvCell(g1, sh, msgs, LeftOf(rank), rank, RightwardTag, 0, i, j);
    RecvCell(g, sh, msgs, RightOf(rank, procs), rank, LeftwardTag, sh.width + 1, i, j);
  }

  /** Cell by cell, `receiveBorders` fills ghost column W+1 from the right
      neighbour's message, ghost column 0 from the left neighbour's message,
      and leaves every other cell, and both ghosts at the ends of the line,
      as they were. */
  lemma ReceiveCells(g: seq<Cell>, sh: Shape, msgs: seq<Message>, rank: nat, procs: nat, i: int, j: int)
    requires |g| == sh.Size() && sh.Valid() && rank < procs
    requires Deliverable(msgs, sh, rank, procs)
    requires 0 <= i < sh.rows && 0 <= j <= sh.width + 1
    ensures At(ReceiveInto(g, sh, msgs, rank, procs), sh, i, j)
         == if j == 0 && rank > 0 then Matching(msgs, rank - 1, rank, RightwardTag)[0].payload[i]
            else if j == sh.width + 1 && rank + 1 < procs then Matching(msgs, rank + 1, rank, LeftwardTag)[0].payload[i]
            else At(g, sh, i, j)
  {
    match RoleOf(rank, procs)
    case Leftmost => ReceiveCellsLeftmost(g, sh, msgs, rank, procs, i, j);
    case Rightmost => ReceiveCellsRightmost(g, sh, msgs, rank, procs, i, j);
    case Interior => ReceiveCellsInterior(g, sh, msgs, rank, procs, i, j);
  }

  /** Every slab has the buffer size of the shape. */
  predicate Slabs(slabs: seq<seq<Cell>>, sh: Shape) {
    sh.Valid() && forall p :: 0 <= p < |slabs| ==> |slabs[p]| == sh.Size()
  }

  /** The messages of the first `n` outboxes, in process order. */
  function Flatten(outs: seq<seq<Message>>, n: nat): seq<Message>
    requires n <= |outs|
  {
    if n == 0 then [] else Flatten(outs, n - 1) + outs[n - 1]
  }

  /** Outbox p holds only messages whose source is p. */
  predicate Sourced(outs: seq<seq<Message>>) {
    forall p, m :: 0 <= p < |outs| && m in outs[p] ==> m.source == p
  }

  lemma {:induction false} NoneMatch(msgs: seq<Message>, source: nat, dest: nat, tag: nat)
    requires forall m :: m in msgs ==> m.source != source
    ensures Matching(msgs, source, dest, tag) == []
  {
    if msgs != [] {
      assert msgs[0] in msgs;
      assert forall m :: m in msgs[1..] ==> m in msgs;
      NoneMatch(msgs[1..], source, dest, tag);
    }
  }

  // Not a step of the exchange: the two identities, called where they are
  // needed, keep the solver from unfolding sequence concatenation elsewhere.
  lemma ConcatNil(a: seq<Message>)
    ensures [] + a == a && a + [] == a
  {
  }

  /** An outbox holding only messages of source p has nothing for a receive
      naming another source. */
  lemma OutboxNoneMatch(outs: seq<seq<Message>>, p: nat, q: nat, dest: nat, tag: nat)
    requires Sourced(outs) && p < |outs| && p != q
    ensures Matching(outs[p], q, dest, tag) == []
  {
    forall m | m in outs[p] ensures m.source != q {
      assert m.source == p;
    }
    NoneMatch(outs[p], q, dest, tag);
  }

  /** Before process q has posted, a receive naming q matches nothing. */
  lemma {:induction false} FlattenMatchingNone(outs: seq<seq<Message>>, n: nat, q: nat, dest: nat, tag: nat)
    requires Sourced(outs) && n <= |outs| && n <= q
    ensures Matching(Flatten(outs, n), q, dest, tag) == []
  {
    if n > 0 {
      FlattenMatchingNone(outs, n - 1, q, dest, tag);
      MatchingConcat(Flatten(outs, n - 1), outs[n - 1], q, dest, tag);
      OutboxNoneMatch(outs, n - 1, q, dest, tag);
    }
  }

  /** Right after process q has posted, a receive naming q sees q's outbox. */
  lemma FlattenMatchingPosted(outs: seq<seq<Message>>, q: nat, dest: nat, tag: nat)
    requires Sourced(outs) && q < |outs|
    ensures Matching(Flatten(outs, q + 1), q, dest, tag) == Matching(outs[q], q, dest, tag)
  {
    assert Flatten(outs, q + 1) == Flatten(outs, q) + outs[q];
    MatchingConcat(Flatten(outs, q), outs[q], q, dest, tag);
    FlattenMatchingNone(outs, q, q, dest, tag);
    ConcatNil(Matching(outs[q], q, dest, tag));
  }

  /** Once process q has posted, a receive naming q sees just q's outbox. */
  lemma {:induction false} FlattenMatchingOwn(outs: seq<seq<Message>>, n: nat, q: nat, dest: nat, tag: nat)
    requires Sourced(outs) && q < n <= |outs|
    ensures Matching(Flatten(outs, n), q, dest, tag) == Matching(outs[q], q, dest, tag)
  {
    if q == n - 1 {
      FlattenMatchingPosted(outs, q, dest, tag);
    } else {
      var earlier := Flatten(outs, n - 1);
      assert Flatten(outs, n) == earlier + outs[n - 1];
      MatchingConcat(earlier, outs[n - 1], q, dest, tag);
      FlattenMatchingOwn(outs, n - 1, q, dest, tag);
      OutboxNoneMatch(outs, n - 1, q, dest, tag);
      ConcatNil(Matching(earlier, q, dest, tag));
    }
  }

  /** Every message a process posts names it as the source. */
  lemma SendsSource(g: seq<Cell>, sh: Shape, rank: nat, procs: nat)
    requires |g| == sh.Size() && sh.Valid() && rank < procs
    ensures forall m :: m in Sends(g, sh, rank, procs) ==> m.source == rank
  {
  }

  /** What each process posts in one step, by rank. */
  function Outboxes(slabs: seq<seq<Cell>>, sh: Shape): (r: seq<seq<Message>>)
    requires Slabs(slabs, sh)
    ensures |r| == |slabs|
  {
    seq(|slabs|, p requires 0 <= p < |slabs| => Sends(slabs[p], sh, p, |slabs|))
  }

  lemma OutboxesSourced(slabs: seq<seq<Cell>>, sh: Shape)
    requires Slabs(slabs, sh)
    ensures Sourced(Outboxes(slabs, sh))
  {
    forall p | 0 <= p < |slabs| {
      SendsSource(slabs[p], sh, p, |slabs|);
    }
  }

  /** Everything the first `n` processes post in one step. */
  function Network(slabs: seq<seq<Cell>>, sh: Shape, n: nat): seq<Message>
    requires Slabs(slabs, sh) && n <= |slabs|
  {
    Flatten(Outboxes(slabs, sh), n)
  }

  /** The receives that can match messages of process `q` are those whose
      source is `q`, and among everything posted they see only what `q` posted. */
  lemma {:induction false} NetworkMatching(slabs: seq<seq<Cell>>, sh: Shape, n: nat, q: nat, dest: nat, tag: nat)
    requires Slabs(slabs, sh) && n <= |slabs|
    ensures Matching(Network(slabs, sh, n), q, dest, tag)
         == if q < n then Matching(Sends(slabs[q], sh, q, |slabs|), q, dest, tag) else []
  {
    OutboxesSourced(slabs, sh);
    if q < n {
      FlattenMatchingOwn(Outboxes(slabs, sh), n, q, dest, tag);
    } else {
      FlattenMatchingNone(Outboxes(slabs, sh), n, q, dest, tag);
    }
  }

  /** Process p's receive from its right neighbour matches exactly one
      message: that neighbour's column 1. */
  lemma {:induction false} FromRight(slabs: seq<seq<Cell>>, sh: Shape, p: nat)
    requires Slabs(slabs, sh) && p + 1 < |slabs|
    ensures Matching(Network(slabs, sh, |slabs|), p + 1, p, LeftwardTag)
         == [Message(p + 1, p, LeftwardTag, Column(slabs[p + 1], sh, 1))]
  {
    NetworkMatching(slabs, sh, |slabs|, p + 1, p, LeftwardTag);
    SendsMatching(slabs[p + 1], sh, p + 1, |slabs|);
  }

  /** Process p's receive from its left neighbour matches exactly one
      message: that neighbour's column W. */
  lemma {:induction false} FromLeft(slabs: seq<seq<Cell>>, sh: Shape, p: nat)
    requires Slabs(slabs, sh) && 0 < p < |slabs|
    ensures Matching(Network(slabs, sh, |slabs|), p - 1, p, RightwardTag)
         == [Message(p - 1, p, RightwardTag, Column(slabs[p - 1], sh, sh.width))]
  {
    NetworkMatching(slabs, sh, |slabs|, p - 1, p, RightwardTag);
    SendsMatching(slabs[p - 1], sh, p - 1, |slabs|);
  }

  /** No receive of the exchange blocks forever. */
  lemma {:induction false} NetworkDelivers(slabs: seq<seq<Cell>>, sh: Shape, p: nat)
    requires Slabs(slabs, sh) && p < |slabs|
    ensures Deliverable(Network(slabs, sh, |slabs|), sh, p, |slabs|)
  {
    if p + 1 < |slabs| {
      FromRight(slabs, sh, p);
    }
    if p > 0 {
      FromLeft(slabs, sh, p);
    }
  }

  /** Every slab after all processes have sent and received their borders. */
  function Exchange(slabs: seq<seq<Cell>>, sh: Shape): (r: seq<seq<Cell>>)
    requires Slabs(slabs, sh)
    ensures |r| == |slabs| && Slabs(r, sh)
    ensures forall p :: 0 <= p < |slabs| ==> SameOwned(slabs[p], r[p], sh)
  {
    var net := Network(slabs, sh, |slabs|);
    seq(|slabs|, p requires 0 <= p < |slabs| =>
      NetworkDelivers(slabs, sh, p);
      ReceiveInto(slabs[p], sh, net, p, |slabs|))
  }

  /** After the exchange each ghost column holds the neighbour's outermost
      owned column, a ghost column at either end of the line keeps its
      content, and the owned columns are unchanged. */
  lemma {:induction false} HaloCorrect(slabs: seq<seq<Cell>>, sh: Shape, p: nat, i: int, j: int)
    requires Slabs(slabs, sh) && p < |slabs| && 0 <= i < sh.rows && 0 <= j <= sh.width + 1
    ensures At(Exchange(slabs, sh)[p], sh, i, j)
         == if j == 0 && p > 0 then At(slabs[p - 1], sh, i, sh.width)
            else if j == sh.width + 1 && p + 1 < |slabs| then At(slabs[p + 1], sh, i, 1)
            else At(slabs[p], sh, i, j)
  {
    var net := Network(slabs, sh, |slabs|);
    NetworkDelivers(slabs, sh, p);
    assert Exchange(slabs, sh)[p] == ReceiveInto(slabs[p], sh, net, p, |slabs|);
    ReceiveCells(slabs[p], sh, net, p, |slabs|, i, j);
    if j == 0 && p > 0 {
      FromLeft(slabs, sh, p);
    } else if j == sh.width + 1 && p + 1 < |slabs| {
      FromRight(slabs, sh, p);
    }
  }

  /** No message is left over: every message posted in a step is the one
      some receive of that step matches. */
  lemma {:induction false} EveryMessageReceived(slabs: seq<seq<Cell>>, sh: Shape, m: Message)
    requires Slabs(slabs, sh) && m in Network(slabs, sh, |slabs|)
    ensures m.dest < |slabs|
    ensures m.tag == LeftwardTag ==> m.source == m.dest + 1 && RightOf(m.dest, |slabs|) == Some(m.source)
    ensures m.tag == RightwardTag ==> m.source + 1 == m.dest && LeftOf(m.dest) == Some(m.source)
    ensures m.tag == LeftwardTag || m.tag == RightwardTag
  {
    var q := m.source;
    var matching := Matching(Network(slabs, sh, |slabs|), q, m.dest, m.tag);
    MatchingMembers(Network(slabs, sh, |slabs|), q, m.dest, m.tag);
    assert m in matching;
    NetworkMatching(slabs, sh, |slabs|, q, m.dest, m.tag);
    assert q < |slabs|;
    MatchingMembers(Sends(slabs[q], sh, q, |slabs|), q, m.dest, m.tag);
    assert m in Sends(slabs[q], sh, q, |slabs|);
    SendsGoToNeighbours(slabs[q], sh, q, |slabs|);
  }
}
