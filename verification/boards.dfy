/** The grid of the simulation: a `width × height` board of two-state cells,
    stored row-major (the cell at `(x, y)` lives at offset `y * width + x`),
    with a column-major iterator and two text renderings. */
module Boards {
  import opened Wrappers

  datatype Cell = Dead | Live

  /** The side-channel record of the last transition of a position. */
  datatype CellLifecycle = Died | Born

  /** A position `(x, y)`: column first, then row. */
  type Pos = (nat, nat)

  /** What a panic raised by the board is about. */
  datatype Panic =
    | ZeroSized                         // a dimension of a new board is zero
    | XOutOfBound(x: nat, width: nat)   // the column check failed (it runs first)
    | YOutOfBound(y: nat, height: nat)  // the row check failed

  // ---------------------------------------------------------------- cells

  /** Toggles a cell between `Dead` and `Live`. */
  function Flip(c: Cell): (r: Cell)
    ensures r != c
  {
    var isAlive := match c case Dead => false case Live => true;
    if isAlive then Dead else Live
  }

  lemma FlipTwice(c: Cell)
    ensures Flip(Flip(c)) == c
  {}

  /** The one-character `Display` text of a cell. */
  function CellText(c: Cell): (s: string)
    ensures |s| == 1
    ensures s[0] == 'O' <==> c == Live
    ensures s[0] == 'X' <==> c == Dead
  {
    match c
    case Dead => "X"
    case Live => "O"
  }

  // ---------------------------------------------------------------- arithmetic

  lemma MulMono(a: nat, c: nat, d: nat)
    requires a <= c
    ensures a * d <= c * d
  {}

  /** Division by `d` recovers quotient and remainder of `q * d + r`. */
  lemma DivModUnique(n: nat, q: nat, r: nat, d: nat)
    requires 0 < d && r < d && n == q * d + r
    ensures n / d == q && n % d == r
  {
    var q', r' := n / d, n % d;
    assert n == q' * d + r';
    if q' < q {
      MulMono(q' + 1, q, d);
    } else if q < q' {
      MulMono(q + 1, q', d);
    }
  }

  /** A number below `m * d` has quotient below `m`. */
  lemma DivBelow(n: nat, d: nat, m: nat)
    requires 0 < d && n < m * d
    ensures n / d < m && n == (n / d) * d + n % d && n % d < d
  {
    if n / d >= m {
      MulMono(m, n / d, d);
    }
  }

  // ---------------------------------------------------------------- the board

  /** `inner` holds the cells row-major; `width` and `height` are fixed. */
  datatype Board = Board(inner: seq<Cell>, width: nat, height: nat)

  /** What every board built by `New` satisfies. */
  predicate Valid(b: Board)
  {
    b.width > 0 && b.height > 0 && |b.inner| == b.width * b.height
  }

  /** The bounds predicate that every accessor asserts. */
  predicate CheckIndex(b: Board, p: Pos)
  {
    p.0 < b.width && p.1 < b.height
  }

  /** `check_index` is exactly the guard of reading, of `set`, and of being
      visited by the iterator. */
  lemma CheckIndexGuardsAccess(b: Board, p: Pos, c: Cell)
    requires Valid(b)
    ensures CheckIndex(b, p) <==> Index(b, p).Ok?
    ensures CheckIndex(b, p) <==> Set(b, p, c).Ok?
    ensures CheckIndex(b, p) <==> p in Indices(Iterate(b))
  {
    IterateEntries(b);
  }

  /** Where the cell at `p` is stored. */
  function Offset(b: Board, p: Pos): nat
  {
    p.1 * b.width + p.0
  }

  /** The position stored at offset `i`: the inverse of `Offset`. */
  function RowPos(b: Board, i: nat): (p: Pos)
    requires Valid(b) && i < |b.inner|
    ensures CheckIndex(b, p) && Offset(b, p) == i
  {
    DivBelow(i, b.width, b.height);
    (i % b.width, i / b.width)
  }

  lemma OffsetInverse(b: Board, p: Pos)
    requires Valid(b) && CheckIndex(b, p)
    ensures Offset(b, p) < |b.inner|
    ensures RowPos(b, Offset(b, p)) == p
  {
    MulMono(p.1 + 1, b.height, b.width);
    DivModUnique(Offset(b, p), p.1, p.0, b.width);
  }

  lemma OffsetsInRange(b: Board)
    requires Valid(b)
    ensures forall p: Pos :: CheckIndex(b, p) ==> Offset(b, p) < |b.inner|
  {
    forall p: Pos | CheckIndex(b, p)
      ensures Offset(b, p) < |b.inner|
    {
      OffsetInverse(b, p);
    }
  }

  /** Distinct in-bounds positions are stored at distinct offsets. */
  lemma OffsetInjective(b: Board)
    requires Valid(b)
    ensures forall p, q :: CheckIndex(b, p) && CheckIndex(b, q) && p != q ==> Offset(b, p) != Offset(b, q)
  {
    forall p, q | CheckIndex(b, p) && CheckIndex(b, q) && p != q
      ensures Offset(b, p) != Offset(b, q)
    {
      OffsetInverse(b, p);
      OffsetInverse(b, q);
    }
  }

  /** The cell at an in-bounds position. */
  function At(b: Board, p: Pos): Cell
    requires Valid(b) && CheckIndex(b, p)
  {
    OffsetInverse(b, p);
    b.inner[Offset(b, p)]
  }

  /** The panic of an accessor called at an out-of-bounds position. */
  function BoundsPanic(b: Board, p: Pos): Panic
  {
    if p.0 >= b.width then XOutOfBound(p.0, b.width) else YOutOfBound(p.1, b.height)
  }

  /** `Board::new`: panics when a dimension is zero, otherwise all dead. */
  function New(width: nat, height: nat): (r: Result<Board, Panic>)
    ensures r.Err? <==> width == 0 || height == 0
    ensures r.Err? ==> r.error == ZeroSized
    ensures r.Ok? ==> Valid(r.value) && r.value.width == width && r.value.height == height
    ensures r.Ok? ==> forall p: Pos :: CheckIndex(r.value, p) ==> At(r.value, p) == Dead
  {
    if width == 0 || height == 0 then Err(ZeroSized)
    else
      var b := Board(seq(width * height, _ => Dead), width, height);
      OffsetsInRange(b);
      Ok(b)
  }

  /** The `Index` operator: reads a cell, asserting the bounds first. */
  function Index(b: Board, p: Pos): (r: Result<Cell, Panic>)
    requires Valid(b)
    ensures r.Ok? <==> p.0 < b.width && p.1 < b.height
    ensures r.Ok? ==> r.value == At(b, p)
    ensures r.Err? ==> r.error == BoundsPanic(b, p)
  {
    if CheckIndex(b, p) then Ok(At(b, p)) else Err(BoundsPanic(b, p))
  }

  /** Stores `c` at an in-bounds `p`; the write behind `set` and `IndexMut`. */
  function Write(b: Board, p: Pos, c: Cell): (r: Board)
    requires Valid(b) && CheckIndex(b, p)
    ensures Valid(r) && r.width == b.width && r.height == b.height
    ensures At(r, p) == c
    ensures forall q :: CheckIndex(b, q) && q != p ==> At(r, q) == At(b, q)
  {
    OffsetInverse(b, p);
    var r := Board(b.inner[Offset(b, p) := c], b.width, b.height);
    WriteFrame(b, p, c, r);
    r
  }

  lemma WriteFrame(b: Board, p: Pos, c: Cell, r: Board)
    requires Valid(b) && CheckIndex(b, p) && Offset(b, p) < |b.inner|
    requires r == Board(b.inner[Offset(b, p) := c], b.width, b.height)
    ensures forall q :: CheckIndex(b, q) && q != p ==> At(r, q) == At(b, q)
  {
    OffsetInjective(b);
    forall q | CheckIndex(b, q) && q != p
      ensures At(r, q) == At(b, q)
    {
      OffsetInverse(b, q);
    }
  }

  /** `set` (and a write through `IndexMut`): asserts the bounds, then stores. */
  function Set(b: Board, p: Pos, c: Cell): (r: Result<Board, Panic>)
    requires Valid(b)
    ensures r.Ok? <==> CheckIndex(b, p)
    ensures r.Err? ==> r.error == BoundsPanic(b, p)
    ensures r.Ok? ==> Valid(r.value) && r.value.width == b.width && r.value.height == b.height
    ensures r.Ok? ==> Index(r.value, p) == Ok(c)
    ensures r.Ok? ==> forall q :: CheckIndex(b, q) && q != p ==> Index(r.value, q) == Index(b, q)
  {
    if CheckIndex(b, p) then Ok(Write(b, p, c)) else Err(BoundsPanic(b, p))
  }

  /** Board equality is structural: it is equality of dimensions and cells. */
  lemma Extensionality(a: Board, b: Board)
    requires Valid(a) && Valid(b)
    ensures a == b <==>
      a.width == b.width && a.height == b.height &&
      forall p: Pos :: CheckIndex(a, p) ==> At(a, p) == At(b, p)
  {
    if a.width == b.width && a.height == b.height && forall p: Pos :: CheckIndex(a, p) ==> At(a, p) == At(b, p) {
      forall i | 0 <= i < |a.inner|
        ensures a.inner[i] == b.inner[i]
      {
        var p := RowPos(a, i);
        assert At(a, p) == At(b, p);
      }
      assert a.inner == b.inner;
    }
  }

  /** On a 2×2 board, writing `(1, 1)` leaves `(1, 0)` dead, and `(1, 3)`
      is refused by the row check. */
  lemma IndexExample()
    ensures var b0 := New(2, 2);
      && b0.Ok?
      && var b := Set(b0.value, (1, 1), Live);
      && b.Ok?
      && Index(b.value, (1, 1)) == Ok(Live)
      && Index(b.value, (1, 0)) == Ok(Dead)
      && Set(b0.value, (1, 3), Live) == Err(YOutOfBound(3, 2))
  {
    var b0 := New(2, 2).value;
    assert Index(b0, (1, 0)) == Ok(Dead);
  }

  // ---------------------------------------------------------------- iteration

  /** The rank of `p` in column-major order on a board of this height. */
  function Rank(height: nat, p: Pos): nat
  {
    p.0 * height + p.1
  }

  /** The position of rank `k`: the inverse of `Rank`. */
  function ColPos(b: Board, k: nat): (p: Pos)
    requires Valid(b) && k < |b.inner|
    ensures CheckIndex(b, p) && Rank(b.height, p) == k
  {
    DivBelow(k, b.height, b.width);
    (k / b.height, k % b.height)
  }

  lemma RankInverse(b: Board, p: Pos)
    requires Valid(b) && CheckIndex(b, p)
    ensures Rank(b.height, p) < |b.inner|
    ensures ColPos(b, Rank(b.height, p)) == p
  {
    MulMono(p.0 + 1, b.width, b.height);
    DivModUnique(Rank(b.height, p), p.0, p.1, b.height);
  }

  /** `BoardIter`: the next position to yield, or `None` once exhausted. */
  datatype BoardIter = BoardIter(index: Option<Pos>, width: nat, height: nat)

  /** An iterator over `b` whose pending position is in bounds. */
  predicate IterFor(b: Board, it: BoardIter)
  {
    it.width == b.width && it.height == b.height &&
    (it.index.Some? ==> CheckIndex(b, it.index.value))
  }

  /** `BoardIter::new`: starts at `(0, 0)`. */
  function NewIter(b: Board): (r: BoardIter)
    ensures Valid(b) ==> IterFor(b, r) && ToVisit(b, r) == |b.inner|
  {
    BoardIter(Some((0, 0)), b.width, b.height)
  }

  /** `increment_index`: `y` runs fastest; past the last column it is `None`. */
  function IncrementIndex(it: BoardIter): (r: BoardIter)
    ensures r.width == it.width && r.height == it.height
    ensures it.index.None? ==> r.index.None?
    ensures r.index.Some? ==> r.index.value.0 < it.width && r.index.value.1 < it.height
    ensures it.index.Some? && it.index.value.0 < it.width && it.index.value.1 < it.height ==>
      (r.index.None? <==> it.index.value == (it.width - 1, it.height - 1))
    ensures it.index.Some? && it.index.value.1 < it.height && r.index.Some? ==>
      Rank(it.height, r.index.value) == Rank(it.height, it.index.value) + 1
  {
    match it.index
    case None => it
    case Some(p) =>
      var x := p.0;
      var y := p.1 + 1;
      var x' := if y >= it.height then x + 1 else x;
      var y' := if y >= it.height then 0 else y;
      if x' >= it.width || y' >= it.height then it.(index := None)
      else it.(index := Some((x', y')))
  }

  /** Incrementing moves from rank `k` to rank `k + 1`, or ends after the last. */
  lemma IncrementStep(b: Board, k: nat)
    requires Valid(b) && k < |b.inner|
    ensures IncrementIndex(BoardIter(Some(ColPos(b, k)), b.width, b.height)).index ==
      if k + 1 < |b.inner| then Some(ColPos(b, k + 1)) else None
  {
    var p := ColPos(b, k);
    assert p.0 * b.height + p.1 == k;
    if p.1 + 1 < b.height {
      var q := (p.0, p.1 + 1);
      assert Rank(b.height, q) == k + 1;
      RankInverse(b, q);
    } else if p.0 + 1 < b.width {
      var q := (p.0 + 1, 0);
      assert Rank(b.height, q) == p.0 * b.height + b.height;
      RankInverse(b, q);
    } else {
      assert p.0 + 1 == b.width;
      assert k + 1 == (p.0 + 1) * b.height;
    }
  }

  /** The number of entries an iterator has still to yield. */
  function ToVisit(b: Board, it: BoardIter): nat
    requires Valid(b) && IterFor(b, it)
  {
    match it.index
    case None => 0
    case Some(p) =>
      RankInverse(b, p);
      |b.inner| - Rank(b.height, p)
  }

  /** An item of the iterator: a cell with its position. */
  datatype Entry = Entry(cell: Cell, index: Pos)

  /** `Iterator::next`: yields the pending position with its cell and advances. */
  function Next(b: Board, it: BoardIter): (r: (Option<Entry>, BoardIter))
    requires Valid(b) && IterFor(b, it)
    ensures r.0.Some? <==> it.index.Some?
    ensures r.0.Some? ==> r.0.value == Entry(At(b, it.index.value), it.index.value)
    ensures r.1 == IncrementIndex(it) && IterFor(b, r.1)
    ensures it.index.Some? ==> ToVisit(b, r.1) < ToVisit(b, it)
  {
    match it.index
    case None => (None, it)
    case Some(p) =>
      RankInverse(b, p);
      IncrementStep(b, Rank(b.height, p));
      (Some(Entry(At(b, p), p)), IncrementIndex(it))
  }

  /** Everything an iterator yields from its current state on. */
  function Drain(b: Board, it: BoardIter): (es: seq<Entry>)
    requires Valid(b) && IterFor(b, it)
    ensures |es| == ToVisit(b, it)
    decreases ToVisit(b, it)
  {
    var r := Next(b, it);
    if r.0.None? then [] else [r.0.value] + Drain(b, r.1)
  }

  /** The `k`-th entry in column-major order. */
  function EntryAt(b: Board, k: nat): Entry
    requires Valid(b) && k < |b.inner|
  {
    var p := ColPos(b, k);
    Entry(At(b, p), p)
  }

  lemma {:induction false} DrainListing(b: Board, k: nat)
    requires Valid(b) && k < |b.inner|
    ensures var es := Drain(b, BoardIter(Some(ColPos(b, k)), b.width, b.height));
      |es| == |b.inner| - k && forall j :: 0 <= j < |es| ==> es[j] == EntryAt(b, k + j)
    decreases |b.inner| - k
  {
    var it := BoardIter(Some(ColPos(b, k)), b.width, b.height);
    IncrementStep(b, k);
    if k + 1 < |b.inner| {
      DrainListing(b, k + 1);
    }
  }

  /** Iterating a board (`iter`, `into_iter`): every entry, column-major. */
  function Iterate(b: Board): (es: seq<Entry>)
    requires Valid(b)
    ensures |es| == b.width * b.height
    ensures forall k :: 0 <= k < |es| ==> es[k] == EntryAt(b, k)
  {
    DrainListing(b, 0);
    Drain(b, NewIter(b))
  }

  /** The positions a sequence of entries mentions. */
  function Indices(es: seq<Entry>): set<Pos>
  {
    if es == [] then {} else {es[0].index} + Indices(es[1..])
  }

  /** No position is mentioned twice. */
  predicate Distinct(es: seq<Entry>)
  {
    es == [] || (es[0].index !in Indices(es[1..]) && Distinct(es[1..]))
  }

  /** Every entry is an in-bounds position of `b` paired with its cell. */
  predicate EntriesOf(b: Board, es: seq<Entry>)
    requires Valid(b)
  {
    forall k :: 0 <= k < |es| ==> CheckIndex(b, es[k].index) && es[k].cell == At(b, es[k].index)
  }

  lemma {:induction false} IndicesMembers(es: seq<Entry>, p: Pos)
    ensures p in Indices(es) <==> exists k :: 0 <= k < |es| && es[k].index == p
  {
    if es != [] {
      IndicesMembers(es[1..], p);
      if p in Indices(es[1..]) {
        var k :| 0 <= k < |es[1..]| && es[1..][k].index == p;
        assert es[k + 1].index == p;
      }
      if exists k :: 0 <= k < |es| && es[k].index == p {
        var k :| 0 <= k < |es| && es[k].index == p;
        if k > 0 {
          assert es[1..][k - 1].index == p;
        }
      }
    }
  }

  lemma {:induction false} PairwiseDistinct(es: seq<Entry>)
    requires forall i, j :: 0 <= i < j < |es| ==> es[i].index != es[j].index
    ensures Distinct(es)
  {
    if es != [] {
      var rest := es[1..];
      assert forall k :: 0 <= k < |rest| ==> rest[k].index != es[0].index by {
        forall k | 0 <= k < |rest|
          ensures rest[k].index != es[0].index
        {
          assert rest[k] == es[k + 1];
        }
      }
      IndicesMembers(rest, es[0].index);
      PairwiseDistinct(rest);
    }
  }

  /** The iterator yields `width * height` entries, each in-bounds position
      exactly once (at its column-major rank), each with its own cell. */
  lemma IterateVisitsEachOnce(b: Board)
    requires Valid(b)
    ensures var es := Iterate(b);
      && |es| == b.width * b.height
      && (forall k :: 0 <= k < |es| ==> CheckIndex(b, es[k].index) && es[k].cell == At(b, es[k].index))
      && (forall p: Pos :: CheckIndex(b, p) ==> Rank(b.height, p) < |es| && es[Rank(b.height, p)].index == p)
      && (forall i, j :: 0 <= i < j < |es| ==> es[i].index != es[j].index)
  {
    forall p: Pos | CheckIndex(b, p)
      ensures Rank(b.height, p) < |b.inner| && ColPos(b, Rank(b.height, p)) == p
    {
      RankInverse(b, p);
    }
  }

  /** What the folds over an iteration rely on: every position, once, with its cell. */
  lemma IterateEntries(b: Board)
    requires Valid(b)
    ensures EntriesOf(b, Iterate(b)) && Distinct(Iterate(b))
    ensures forall p: Pos :: p in Indices(Iterate(b)) <==> CheckIndex(b, p)
  {
    var es := Iterate(b);
    IterateVisitsEachOnce(b);
    PairwiseDistinct(es);
    forall p
      ensures p in Indices(es) <==> CheckIndex(b, p)
    {
      IndicesMembers(es, p);
      if CheckIndex(b, p) {
        assert es[Rank(b.height, p)].index == p;
      }
    }
  }

  // ---------------------------------------------------------------- text

  /** The texts of the cells of an iteration, concatenated in order. */
  function IterText(es: seq<Entry>): (s: string)
    ensures |s| == |es|
    ensures forall k :: 0 <= k < |es| ==> s[k] == CellText(es[k].cell)[0]
  {
    if es == [] then "" else IterText(es[..|es| - 1]) + CellText(es[|es| - 1].cell)
  }

  /** Live cells at `(0, 0)` and `(0, 1)` of a 2×2 board iterate as "OOXX". */
  lemma IterationExample()
    ensures var b0 := New(2, 2);
      b0.Ok? && IterText(Iterate(Write(Write(b0.value, (0, 0), Live), (0, 1), Live))) == "OOXX"
  {
    var b0 := New(2, 2).value;
    var b := Write(Write(b0, (0, 0), Live), (0, 1), Live);
    var es := Iterate(b);
    assert ColPos(b, 0) == (0, 0) && ColPos(b, 1) == (0, 1);
    assert ColPos(b, 2) == (1, 0) && ColPos(b, 3) == (1, 1);
    assert es[0].cell == Live && es[1].cell == Live;
    assert es[2].cell == Dead && es[3].cell == Dead;
    var s := IterText(es);
    assert s[0] == 'O' && s[1] == 'O' && s[2] == 'X' && s[3] == 'X';
  }

  /** The board `Display` glyph of a cell (not the cell's own `Display`). */
  function Glyph(c: Cell): char
  {
    match c
    case Dead => '_'
    case Live => 'X'
  }

  const Header: string := "Board: \n"

  /** Where the character for column `col` of row `row` goes after the header. */
  function BodyCursor(width: nat, col: nat, row: nat): nat
  {
    row * (width + 1) + col
  }

  /** The character for column `col` of row `row`; column `width` ends the row. */
  function Pixel(b: Board, col: nat, row: nat): char
    requires Valid(b) && col <= b.width && row < b.height
  {
    if col == b.width then '\n' else Glyph(At(b, (col, row)))
  }

  /** The board `Display`: the header, then one line per row, top to bottom. */
  method Display(b: Board) returns (s: string)
    requires Valid(b)
    ensures |s| == |Header| + b.height * (b.width + 1)
    ensures s[..|Header|] == Header
    ensures forall row: nat, col: nat :: row < b.height && col <= b.width ==>
      |Header| + BodyCursor(b.width, col, row) < |s| &&
      s[|Header| + BodyCursor(b.width, col, row)] == Pixel(b, col, row)
  {
    var str := "";
    var row := 0;
    while row < b.height
      invariant row <= b.height
      invariant |str| == row * (b.width + 1)
      invariant forall r: nat, c: nat :: r < row && c <= b.width ==>
        BodyCursor(b.width, c, r) < |str| && str[BodyCursor(b.width, c, r)] == Pixel(b, c, r)
    {
      var col := 0;
      while col < b.width
        invariant col <= b.width
        invariant |str| == row * (b.width + 1) + col
        invariant forall r: nat, c: nat :: r < row && c <= b.width ==>
          BodyCursor(b.width, c, r) < |str| && str[BodyCursor(b.width, c, r)] == Pixel(b, c, r)
        invariant forall c: nat :: c < col ==>
          BodyCursor(b.width, c, row) < |str| && str[BodyCursor(b.width, c, row)] == Pixel(b, c, row)
      {
        str := str + [Glyph(At(b, (col, row)))];
        col := col + 1;
      }
      str := str + ['\n'];
      row := row + 1;
    }
    s := Header + str;
  }
}
