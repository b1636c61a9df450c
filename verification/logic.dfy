/** The transition engine and resize: one generation of B3/S23 on a torus,
    computed from a snapshot, and rebuilding a board at new dimensions. */
module Logic {
  import opened Wrappers
  import opened Boards

  // ---------------------------------------------------------------- neighbours

  /** `valid_neighbour_index`: `None` for the centre itself, otherwise the
      coordinates reduced by Euclidean remainder into the board. */
  function ValidNeighbourIndex(b: Board, c: Pos, x: int, y: int): (r: Option<Pos>)
    requires Valid(b)
    ensures r.None? <==> x == c.0 && y == c.1
    ensures r.Some? ==> CheckIndex(b, r.value)
    ensures r.Some? ==> r.value == (Wrap(x, b.width), Wrap(y, b.height))
  {
    if x == c.0 && y == c.1 then None
    else
      WrapIsRemEuclid(x, b.width);
      WrapIsRemEuclid(y, b.height);
      Some((x % b.width, y % b.height))
  }

  /** A coordinate brought onto a torus of circumference `n` by adding or
      subtracting whole laps. */
  function Wrap(x: int, n: nat): (r: nat)
    requires 0 < n
    ensures r < n
    decreases if x < 0 then 1 else 0, if x < 0 then -x else x
  {
    if x < 0 then Wrap(x + n, n) else if x >= n then Wrap(x - n, n) else x
  }

  /** The Euclidean remainder is determined by any decomposition `q * n + r`. */
  lemma ModUnique(x: int, q: int, r: int, n: nat)
    requires 0 <= r < n && x == q * n + r
    ensures x % n == r
  {
    var q', r' := x / n, x % n;
    assert (q - q') * n == r' - r;
    if q - q' >= 1 {
      MulMono(1, q - q', n);
    } else if q' - q >= 1 {
      MulMono(1, q' - q, n);
    }
  }

  /** Adding one lap leaves the Euclidean remainder unchanged. */
  lemma ModLap(x: int, n: nat)
    requires 0 < n
    ensures (x + n) % n == x % n
  {
    var q := x / n;
    assert x == q * n + x % n;
    assert x + n == (q + 1) * n + x % n;
    ModUnique(x + n, q + 1, x % n, n);
  }

  lemma {:induction false} WrapIsRemEuclidNat(x: nat, n: nat)
    requires 0 < n
    ensures Wrap(x, n) == x % n
    decreases x
  {
    if x >= n {
      WrapIsRemEuclidNat(x - n, n);
      ModLap(x - n, n);
      assert Wrap(x, n) == Wrap(x - n, n);
    }
  }

  /** Lap-by-lap wrapping is the Euclidean remainder (`rem_euclid`). */
  lemma {:induction false} WrapIsRemEuclid(x: int, n: nat)
    requires 0 < n
    ensures Wrap(x, n) == x % n
    decreases if x < 0 then -x else 0
  {
    if x < 0 {
      WrapIsRemEuclid(x + n, n);
      ModLap(x, n);
      assert Wrap(x, n) == Wrap(x + n, n);
    } else {
      WrapIsRemEuclidNat(x, n);
    }
  }

  /** The left neighbour of column 0 is the last column, and likewise for rows. */
  lemma WrapsAroundEdges(b: Board)
    requires Valid(b)
    ensures ValidNeighbourIndex(b, (0, 0), -1, -1) == Some((b.width - 1, b.height - 1))
    ensures ValidNeighbourIndex(b, (b.width - 1, b.height - 1), b.width, b.height) == Some((0, 0))
  {}

  /** 1 when the cell at the wrapped coordinates `(x, y)` is live, else 0. */
  function LiveAt(b: Board, x: int, y: int): nat
    requires Valid(b)
  {
    if At(b, (Wrap(x, b.width), Wrap(y, b.height))) == Live then 1 else 0
  }

  /** The eight offsets of the neighbours of a cell. */
  const NeighbourOffsets: seq<(int, int)> :=
    [(-1, -1), (-1, 0), (-1, 1), (0, -1), (0, 1), (1, -1), (1, 0), (1, 1)]

  /** How many of the cells at offsets `offs` from `p` (wrapped) are live,
      counted with multiplicity. */
  function LiveAmong(b: Board, p: Pos, offs: seq<(int, int)>): (n: nat)
    requires Valid(b)
    ensures n <= |offs|
    decreases |offs|
  {
    if offs == [] then 0
    else LiveAt(b, p.0 + offs[0].0, p.1 + offs[0].1) + LiveAmong(b, p, offs[1..])
  }

  /** The reference neighbour count: live cells among the eight wrapped
      neighbours of `p`, counted with multiplicity (on a board 1 or 2 wide or
      high two offsets may land on the same cell, or on `p` itself). */
  function LiveNeighbours(b: Board, p: Pos): nat
    requires Valid(b)
  {
    LiveAmong(b, p, NeighbourOffsets)
  }

  /** What probing offset `(x, y)` around `c` adds to the count. */
  function Contribution(b: Board, c: Pos, x: int, y: int): nat
    requires Valid(b)
  {
    match ValidNeighbourIndex(b, c, x, y)
    case None => 0
    case Some(q) => if At(b, q) == Live then 1 else 0
  }

  /** What the first `k` probes of column `x` add (rows `c.1 - 1`, `c.1`, `c.1 + 1`). */
  function ColumnCount(b: Board, c: Pos, x: int, k: nat): nat
    requires Valid(b) && k <= 3
  {
    var y := c.1 as int;
    (if k > 0 then Contribution(b, c, x, y - 1) else 0) +
    (if k > 1 then Contribution(b, c, x, y) else 0) +
    (if k > 2 then Contribution(b, c, x, y + 1) else 0)
  }

  /** What the first `k` full columns add (columns `c.0 - 1`, `c.0`, `c.0 + 1`). */
  function BlockCount(b: Board, c: Pos, k: nat): nat
    requires Valid(b) && k <= 3
  {
    var x := c.0 as int;
    (if k > 0 then ColumnCount(b, c, x - 1, 3) else 0) +
    (if k > 1 then ColumnCount(b, c, x, 3) else 0) +
    (if k > 2 then ColumnCount(b, c, x + 1, 3) else 0)
  }

  /** One full column of the probe adds the live wrapped cells of that
      column, leaving out the centre itself. */
  lemma ColumnIsReference(b: Board, c: Pos, x: int)
    requires Valid(b)
    ensures var y := c.1 as int;
      ColumnCount(b, c, x, 3) ==
        LiveAt(b, x, y - 1) + (if x == c.0 then 0 else LiveAt(b, x, y)) + LiveAt(b, x, y + 1)
  {}

  /** The reference count, written out offset by offset. */
  lemma LiveNeighboursUnfolded(b: Board, c: Pos)
    requires Valid(b)
    ensures var x, y := c.0 as int, c.1 as int;
      LiveNeighbours(b, c) ==
        LiveAt(b, x - 1, y - 1) + LiveAt(b, x - 1, y) + LiveAt(b, x - 1, y + 1) +
        LiveAt(b, x, y - 1) + LiveAt(b, x, y + 1) +
        LiveAt(b, x + 1, y - 1) + LiveAt(b, x + 1, y) + LiveAt(b, x + 1, y + 1)
  {}

  lemma BlockCountIsReference(b: Board, c: Pos)
    requires Valid(b)
    ensures BlockCount(b, c, 3) == LiveNeighbours(b, c)
  {
    var x := c.0 as int;
    assert BlockCount(b, c, 3) ==
      ColumnCount(b, c, x - 1, 3) + ColumnCount(b, c, x, 3) + ColumnCount(b, c, x + 1, 3);
    ColumnIsReference(b, c, x - 1);
    ColumnIsReference(b, c, x);
    ColumnIsReference(b, c, x + 1);
    LiveNeighboursUnfolded(b, c);
  }

  /** `count_live_neighbours`: probes the 3×3 block around `c`, column by
      column, skipping the centre; the result fits the source's `u8`. */
  method CountLiveNeighbours(b: Board, c: Pos) returns (n: nat)
    requires Valid(b)
    ensures n == LiveNeighbours(b, c)
    ensures n <= 8
  {
    n := 0;
    var cx, cy := c.0 as int, c.1 as int;
    var x := cx - 1;
    while x <= cx + 1
      invariant cx - 1 <= x <= cx + 2
      invariant n == BlockCount(b, c, x - (cx - 1))
    {
      var y := cy - 1;
      while y <= cy + 1
        invariant cy - 1 <= y <= cy + 2
        invariant n == BlockCount(b, c, x - (cx - 1)) + ColumnCount(b, c, x, y - (cy - 1))
      {
        var index := ValidNeighbourIndex(b, c, x, y);
        if index.Some? && At(b, index.value) == Live {
          n := n + 1;
        }
        y := y + 1;
      }
      x := x + 1;
    }
    BlockCountIsReference(b, c);
  }

  // ---------------------------------------------------------------- the rule

  /** The side-channel record of transitions, keyed by position. */
  type LifeLog = map<Pos, CellLifecycle>

  /** One arm of the `next_state` match: the new cell for a snapshot cell with
      `n` live neighbours, and what is logged for it. */
  function Transition(cell: Cell, n: nat): (r: (Cell, Option<CellLifecycle>))
    ensures r.0 == Live <==> n == 3 || (cell == Live && n == 2)
    ensures r.1 == None <==> r.0 == cell
    ensures r.1 == Some(Born) <==> cell == Dead && r.0 == Live
    ensures r.1 == Some(Died) <==> cell == Live && r.0 == Dead
  {
    match cell
    case Dead => if n == 3 then (Live, Some(Born)) else (cell, None)
    case Live =>
      if n < 2 then (Dead, Some(Died))
      else if n > 3 then (Dead, Some(Died))
      else (cell, None)
  }

  /** The next generation's cell at `p`, computed from the snapshot. */
  function NewCell(snap: Board, p: Pos): Cell
    requires Valid(snap) && CheckIndex(snap, p)
  {
    Transition(At(snap, p), LiveNeighbours(snap, p)).0
  }

  /** Whether `p` changes between the snapshot and the next generation. */
  predicate Changes(snap: Board, p: Pos)
    requires Valid(snap)
  {
    CheckIndex(snap, p) && NewCell(snap, p) != At(snap, p)
  }

  /** A board being rewritten together with the log of transitions. */
  datatype Generation = Generation(board: Board, log: LifeLog)

  /** One pass of the `next_state` loop body, for the entry `e` of the
      snapshot: the new cell is written at `e`'s position, and a change is logged. */
  function StepEntry(snap: Board, e: Entry, g: Generation): (r: Generation)
    requires Valid(snap) && Valid(g.board)
    requires g.board.width == snap.width && g.board.height == snap.height
    requires CheckIndex(snap, e.index) && e.cell == At(snap, e.index)
    ensures Valid(r.board) && r.board.width == snap.width && r.board.height == snap.height
    ensures At(r.board, e.index) == NewCell(snap, e.index)
    ensures forall p: Pos :: CheckIndex(snap, p) && p != e.index ==> At(r.board, p) == At(g.board, p)
    ensures forall p: Pos :: p in r.log <==> p in g.log || (p == e.index && Changes(snap, p))
    ensures forall p: Pos :: p in r.log ==>
      r.log[p] == if p == e.index && Changes(snap, p)
                  then (if NewCell(snap, p) == Live then Born else Died)
                  else g.log[p]
  {
    var t := Transition(e.cell, LiveNeighbours(snap, e.index));
    var log := if t.1.Some? then g.log[e.index := t.1.value] else g.log;
    Generation(Write(g.board, e.index, t.0), log)
  }

  /** The `next_state` loop, run over the entries `es` of the snapshot. */
  function StepEntries(snap: Board, es: seq<Entry>, g: Generation): (r: Generation)
    requires Valid(snap) && Valid(g.board)
    requires g.board.width == snap.width && g.board.height == snap.height
    requires EntriesOf(snap, es) && Distinct(es)
    ensures Valid(r.board) && r.board.width == snap.width && r.board.height == snap.height
    ensures forall p: Pos :: CheckIndex(snap, p) ==>
      At(r.board, p) == if p in Indices(es) then NewCell(snap, p) else At(g.board, p)
    ensures forall p: Pos :: p in r.log <==> p in g.log || (p in Indices(es) && Changes(snap, p))
    ensures forall p: Pos :: p in r.log ==>
      r.log[p] == if p in Indices(es) && Changes(snap, p)
                  then (if NewCell(snap, p) == Live then Born else Died)
                  else g.log[p]
    decreases |es|
  {
    if es == [] then g
    else
      assert EntriesOf(snap, es[1..]) by {
        forall k | 0 <= k < |es[1..]|
          ensures es[1..][k] == es[k + 1]
        {}
      }
      StepEntries(snap, es[1..], StepEntry(snap, es[0], g))
  }

  /** The result of `next_state`: the new board, the updated log, and whether
      anything changed. */
  datatype Stepped = Stepped(board: Board, log: LifeLog, changed: bool)

  /** `next_state`: every cell of a snapshot is recomputed by B3/S23 over its
      wrapped neighbourhood; births and deaths are added to the log. */
  function NextState(board: Board, log: LifeLog): (r: Stepped)
    requires Valid(board)
    ensures Valid(r.board) && r.board.width == board.width && r.board.height == board.height
    ensures forall p: Pos :: CheckIndex(board, p) ==>
      (At(r.board, p) == Live <==>
        LiveNeighbours(board, p) == 3 || (At(board, p) == Live && LiveNeighbours(board, p) == 2))
    ensures r.changed <==> r.board != board
    ensures r.changed <==> exists p: Pos :: CheckIndex(board, p) && At(r.board, p) != At(board, p)
    ensures forall p: Pos :: p in r.log <==>
      p in log || (CheckIndex(board, p) && At(r.board, p) != At(board, p))
    ensures forall p: Pos :: CheckIndex(board, p) && At(r.board, p) != At(board, p) ==>
      r.log[p] == if At(r.board, p) == Live then Born else Died
    ensures forall p: Pos :: p in log && !(CheckIndex(board, p) && At(r.board, p) != At(board, p)) ==>
      r.log[p] == log[p]
  {
    var snapshot := board;
    var es := Iterate(snapshot);
    IterateEntries(snapshot);
    var g := StepEntries(snapshot, es, Generation(board, log));
    StepCoversBoard(snapshot, log, es, g);
    Stepped(g.board, g.log, g.board != snapshot)
  }

  /** Running the loop body over entries that cover the whole board yields
      the next generation and its log. */
  lemma StepCoversBoard(snap: Board, log: LifeLog, es: seq<Entry>, g: Generation)
    requires Valid(snap) && Valid(g.board)
    requires g.board.width == snap.width && g.board.height == snap.height
    requires forall p: Pos :: p in Indices(es) <==> CheckIndex(snap, p)
    requires forall p: Pos :: CheckIndex(snap, p) ==>
      At(g.board, p) == if p in Indices(es) then NewCell(snap, p) else At(snap, p)
    requires forall p: Pos :: p in g.log <==> p in log || (p in Indices(es) && Changes(snap, p))
    requires forall p: Pos :: p in g.log ==>
      g.log[p] == if p in Indices(es) && Changes(snap, p)
                  then (if NewCell(snap, p) == Live then Born else Died)
                  else log[p]
    ensures forall p: Pos :: CheckIndex(snap, p) ==>
      (At(g.board, p) == Live <==>
        LiveNeighbours(snap, p) == 3 || (At(snap, p) == Live && LiveNeighbours(snap, p) == 2))
    ensures g.board != snap <==> exists p: Pos :: CheckIndex(snap, p) && At(g.board, p) != At(snap, p)
    ensures forall p: Pos :: p in g.log <==>
      p in log || (CheckIndex(snap, p) && At(g.board, p) != At(snap, p))
    ensures forall p: Pos :: CheckIndex(snap, p) && At(g.board, p) != At(snap, p) ==>
      g.log[p] == if At(g.board, p) == Live then Born else Died
    ensures forall p: Pos :: p in log && !(CheckIndex(snap, p) && At(g.board, p) != At(snap, p)) ==>
      g.log[p] == log[p]
  {
    Extensionality(g.board, snap);
    forall p: Pos | CheckIndex(snap, p)
      ensures At(g.board, p) == NewCell(snap, p)
    {
      assert p in Indices(es);
    }
  }

  // ---------------------------------------------------------------- resize

  /** The `filter`/`for_each` of `resize` over the entries `es` of `prev`:
      each live entry that fits the new board is flipped there. */
  function FlipFitting(prev: Board, es: seq<Entry>, nb: Board): (r: Board)
    requires Valid(prev) && Valid(nb)
    requires EntriesOf(prev, es) && Distinct(es)
    ensures Valid(r) && r.width == nb.width && r.height == nb.height
    ensures forall p: Pos :: CheckIndex(nb, p) ==>
      At(r, p) == if p in Indices(es) && CheckIndex(prev, p) && At(prev, p) == Live
                  then Flip(At(nb, p)) else At(nb, p)
    decreases |es|
  {
    if es == [] then nb
    else
      var e := es[0];
      var nb' := if e.cell == Live && e.index.0 < nb.width && e.index.1 < nb.height
                 then Write(nb, e.index, Flip(At(nb, e.index))) else nb;
      assert EntriesOf(prev, es[1..]) by {
        forall k | 0 <= k < |es[1..]|
          ensures es[1..][k] == es[k + 1]
        {}
      }
      FlipFitting(prev, es[1..], nb')
  }

  /** `resize`: a new all-dead `x × y` board holding the old live cells that fit. */
  function Resize(b: Board, x: nat, y: nat): (r: Result<Board, Panic>)
    requires Valid(b)
    ensures r.Err? <==> x == 0 || y == 0
    ensures r.Err? ==> r.error == ZeroSized
    ensures r.Ok? ==> Valid(r.value) && r.value.width == x && r.value.height == y
    ensures r.Ok? ==> forall p: Pos :: CheckIndex(r.value, p) ==>
      (At(r.value, p) == Live <==> p.0 < b.width && p.1 < b.height && At(b, p) == Live)
  {
    match New(x, y)
    case Err(e) => Err(e)
    case Ok(nb) =>
      var es := Iterate(b);
      IterateEntries(b);
      var r := FlipFitting(b, es, nb);
      FlipCoversBoard(b, es, nb, r);
      Ok(r)
  }

  /** Flipping, in an all-dead board, the fitting live cells of every entry
      of `prev` leaves exactly those cells live. */
  lemma FlipCoversBoard(prev: Board, es: seq<Entry>, nb: Board, r: Board)
    requires Valid(prev) && Valid(nb) && Valid(r)
    requires r.width == nb.width && r.height == nb.height
    requires forall p: Pos :: CheckIndex(nb, p) ==> At(nb, p) == Dead
    requires forall p: Pos :: p in Indices(es) <==> CheckIndex(prev, p)
    requires forall p: Pos :: CheckIndex(nb, p) ==>
      At(r, p) == if p in Indices(es) && CheckIndex(prev, p) && At(prev, p) == Live
                  then Flip(At(nb, p)) else At(nb, p)
    ensures forall p: Pos :: CheckIndex(r, p) ==>
      (At(r, p) == Live <==> p.0 < prev.width && p.1 < prev.height && At(prev, p) == Live)
  {
  }

  /** Resizing to the current dimensions gives the same board back. */
  lemma ResizeToSameSize(b: Board)
    requires Valid(b)
    ensures Resize(b, b.width, b.height) == Ok(b)
  {
    var r := Resize(b, b.width, b.height).value;
    Extensionality(r, b);
  }
}
