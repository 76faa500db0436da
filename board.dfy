/** The 9x9 board of cells kept in the component's `board` state, the
    open-cell recount of src/App.js and the facts about counting cells. */
module Board {
  import opened Grid

  /** The value of a cell's `sibblingBomb` property. A cell starts at 0;
      placing a bomb deletes the property (leaving `undefined`), and
      `undefined + 1` and `NaN + 1` are both `NaN` in JavaScript. */
  datatype Tally = Num(n: nat) | Deleted | NaN

  /** `currSibbling + 1`: a number goes up by one; `undefined` and `NaN`
      give `NaN`. */
  function Inc(t: Tally): (r: Tally)
    ensures r.Num? <==> t.Num?
    ensures t.Num? ==> r.n == t.n + 1
    ensures !t.Num? ==> r == NaN
  {
    match t
    case Num(n) => Num(n + 1)
    case _ => NaN
  }

  /** One cell (its `id` string is left out: it only encodes the position). */
  datatype Cell = Cell(isBomb: bool, isOpen: bool, sibblingBomb: Tally)

  predicate IsBoardShape(g: seq<seq<Cell>>) {
    |g| == Size && forall i :: 0 <= i < Size ==> |g[i]| == Size
  }

  /** All cells closed, no bomb, `sibblingBomb: 0` (src/App.js:36-44). */
  function ClosedGrid(): (g: seq<seq<Cell>>)
    ensures IsBoardShape(g)
    ensures forall i, j :: 0 <= i < Size && 0 <= j < Size ==> g[i][j] == Cell(false, false, Num(0))
  {
    seq(Size, i => seq(Size, j => Cell(false, false, Num(0))))
  }

  type Board = g: seq<seq<Cell>> | IsBoardShape(g) witness ClosedGrid()

  function At(b: Board, p: Pos): Cell
    requires InGrid(p)
  {
    b[p.0][p.1]
  }

  /** `board[row][cell] = x`, seen cell by cell. */
  function Put(b: Board, p: Pos, x: Cell): (r: Board)
    requires InGrid(p)
    ensures forall q {:trigger At(r, q)} :: InGrid(q) ==> At(r, q) == if q == p then x else At(b, q)
  {
    b[p.0 := b[p.0][p.1 := x]]
  }

  predicate IsOpenCell(c: Cell) { c.isOpen }

  predicate IsBombCell(c: Cell) { c.isBomb }

  /** Number of cells of a row satisfying `f`: `row.filter(f).length`. */
  function RowCount(row: seq<Cell>, f: Cell -> bool): (n: nat)
    ensures n <= |row|
  {
    if row == [] then 0 else Bit(f(row[0])) + RowCount(row[1..], f)
  }

  /** Number of cells of a grid satisfying `f`, summed row by row. */
  function GridCount(g: seq<seq<Cell>>, f: Cell -> bool): nat {
    if g == [] then 0 else RowCount(g[0], f) + GridCount(g[1..], f)
  }

  /** `board.reduce((acc, row) => acc + row.filter(b => b.isOpen).length, 0)`
      (src/App.js:96-98 and 151-153). */
  function OpenCount(b: Board): (n: nat)
    ensures n <= Size * Size
  {
    GridCountAtMost(b, IsOpenCell, Size);
    GridCount(b, IsOpenCell)
  }

  /** Number of bomb cells on the board. */
  function BombCount(b: Board): nat {
    GridCount(b, IsBombCell)
  }

  /** Number of the listed positions that hold a bomb. */
  function BombsAmong(b: Board, qs: seq<Pos>): nat
    requires AllInGrid(qs)
  {
    if qs == [] then 0 else BombsAmong(b, qs[..|qs| - 1]) + Bit(At(b, qs[|qs| - 1]).isBomb)
  }

  /** No listed position holds a bomb exactly when none is counted. */
  lemma {:induction false} BombsAmongZero(b: Board, qs: seq<Pos>)
    requires AllInGrid(qs)
    ensures BombsAmong(b, qs) == 0 <==> forall q {:trigger q in qs} :: q in qs ==> !At(b, q).isBomb
  {
    if qs != [] {
      var init := qs[..|qs| - 1];
      var last := qs[|qs| - 1];
      BombsAmongZero(b, init);
      assert forall q :: q in qs <==> q in init || q == last;
      if BombsAmong(b, qs) == 0 {
        forall q | q in qs ensures !At(b, q).isBomb {
          if q != last {
            assert q in init;
          }
        }
      } else if BombsAmong(b, init) == 0 {
        assert last in qs && At(b, last).isBomb;
      } else {
        var q :| q in init && At(b, q).isBomb;
        assert q in qs;
      }
    }
  }

  /** Independent recomputation of a cell's adjacency count from the
      board's bomb flags. */
  function NeighbourBombs(b: Board, p: Pos): nat {
    BombsAmong(b, Siblings(p.0, p.1))
  }

  ghost predicate NoOpenBomb(b: Board) {
    forall p {:trigger At(b, p)} :: InGrid(p) ==> !(At(b, p).isOpen && At(b, p).isBomb)
  }

  /** Every non-bomb cell's `sibblingBomb` is the number of bombs around it. */
  ghost predicate CountsCorrect(b: Board) {
    forall p {:trigger At(b, p)} :: InGrid(p) && !At(b, p).isBomb ==> At(b, p).sibblingBomb == Num(NeighbourBombs(b, p))
  }

  /** The two boards have their bombs in the same places. */
  ghost predicate SameBombs(a: Board, b: Board) {
    forall p {:trigger At(a, p)} {:trigger At(b, p)} :: InGrid(p) ==> At(a, p).isBomb == At(b, p).isBomb
  }

  /** Every position of `ps` is a cell of the board without a bomb. */
  ghost predicate SafeSet(b: Board, ps: set<Pos>) {
    forall q {:trigger q in ps} :: q in ps ==> InGrid(q) && !At(b, q).isBomb
  }

  /** `b` with every cell whose position is in `ps` set open; nothing else changes. */
  function Opened(b: Board, ps: set<Pos>): Board {
    seq(Size, i requires 0 <= i < Size =>
      seq(Size, j requires 0 <= j < Size =>
        if (i, j) in ps then b[i][j].(isOpen := true) else b[i][j]))
  }

  // ---------------------------------------------------------------------
  // Counting lemmas

  lemma {:induction false} RowCountUpdate(row: seq<Cell>, j: int, x: Cell, f: Cell -> bool)
    requires 0 <= j < |row|
    ensures RowCount(row[j := x], f) == RowCount(row, f) - Bit(f(row[j])) + Bit(f(x))
  {
    if j > 0 {
      assert row[j := x][1..] == row[1..][j - 1 := x];
      RowCountUpdate(row[1..], j - 1, x, f);
    } else {
      assert row[j := x][1..] == row[1..];
    }
  }

  /** Changing one cell changes the count by what that cell contributes. */
  lemma {:induction false} GridCountUpdate(g: seq<seq<Cell>>, i: int, j: int, x: Cell, f: Cell -> bool)
    requires 0 <= i < |g| && 0 <= j < |g[i]|
    ensures GridCount(g[i := g[i][j := x]], f) == GridCount(g, f) - Bit(f(g[i][j])) + Bit(f(x))
  {
    if i > 0 {
      assert g[i := g[i][j := x]][1..] == g[1..][i - 1 := g[i][j := x]];
      GridCountUpdate(g[1..], i - 1, j, x, f);
    } else {
      assert g[i := g[i][j := x]][1..] == g[1..];
      RowCountUpdate(g[0], j, x, f);
    }
  }

  lemma {:induction false} RowCountMono(a: seq<Cell>, b: seq<Cell>, f: Cell -> bool, h: Cell -> bool)
    requires |a| == |b|
    requires forall j :: 0 <= j < |a| ==> f(a[j]) ==> h(b[j])
    ensures RowCount(a, f) <= RowCount(b, h)
  {
    if a != [] {
      RowCountMono(a[1..], b[1..], f, h);
    }
  }

  /** A count can only grow when every counted cell stays counted. */
  lemma {:induction false} GridCountMono(a: seq<seq<Cell>>, b: seq<seq<Cell>>, f: Cell -> bool, h: Cell -> bool)
    requires |a| == |b| && forall i :: 0 <= i < |a| ==> |a[i]| == |b[i]|
    requires forall i, j :: 0 <= i < |a| && 0 <= j < |a[i]| ==> f(a[i][j]) ==> h(b[i][j])
    ensures GridCount(a, f) <= GridCount(b, h)
  {
    if a != [] {
      RowCountMono(a[0], b[0], f, h);
      GridCountMono(a[1..], b[1..], f, h);
    }
  }

  lemma {:induction false} RowCountNone(row: seq<Cell>, f: Cell -> bool)
    requires forall j :: 0 <= j < |row| ==> !f(row[j])
    ensures RowCount(row, f) == 0
  {
    if row != [] {
      RowCountNone(row[1..], f);
    }
  }

  lemma {:induction false} GridCountNone(g: seq<seq<Cell>>, f: Cell -> bool)
    requires forall i, j :: 0 <= i < |g| && 0 <= j < |g[i]| ==> !f(g[i][j])
    ensures GridCount(g, f) == 0
  {
    if g != [] {
      RowCountNone(g[0], f);
      GridCountNone(g[1..], f);
    }
  }

  /** A grid of rows of one width has at most that many cells per row. */
  lemma {:induction false} GridCountAtMost(g: seq<seq<Cell>>, f: Cell -> bool, width: nat)
    requires forall i :: 0 <= i < |g| ==> |g[i]| == width
    ensures GridCount(g, f) <= |g| * width
  {
    if g != [] {
      GridCountAtMost(g[1..], f, width);
    }
  }

  lemma {:induction false} RowCountDisjoint(row: seq<Cell>, f: Cell -> bool, h: Cell -> bool)
    requires forall j :: 0 <= j < |row| ==> !(f(row[j]) && h(row[j]))
    ensures RowCount(row, f) + RowCount(row, h) <= |row|
    ensures RowCount(row, f) + RowCount(row, h) == |row| <==> forall j :: 0 <= j < |row| ==> f(row[j]) || h(row[j])
  {
    if row != [] {
      RowCountDisjoint(row[1..], f, h);
      assert forall j :: 0 <= j < |row[1..]| ==> row[1..][j] == row[j + 1];
    }
  }

  /** Two predicates no cell satisfies together count at most the cells,
      exactly the cells when each cell satisfies one of them. */
  lemma {:induction false} GridCountDisjoint(g: seq<seq<Cell>>, f: Cell -> bool, h: Cell -> bool, width: nat)
    requires forall i :: 0 <= i < |g| ==> |g[i]| == width
    requires forall i, j :: 0 <= i < |g| && 0 <= j < |g[i]| ==> !(f(g[i][j]) && h(g[i][j]))
    ensures GridCount(g, f) + GridCount(g, h) <= |g| * width
    ensures GridCount(g, f) + GridCount(g, h) == |g| * width <==>
      forall i, j :: 0 <= i < |g| && 0 <= j < |g[i]| ==> f(g[i][j]) || h(g[i][j])
  {
    if g != [] {
      RowCountDisjoint(g[0], f, h);
      GridCountDisjoint(g[1..], f, h, width);
      assert forall i :: 0 <= i < |g[1..]| ==> g[1..][i] == g[i + 1];
      assert |g| * width == width + |g[1..]| * width;
    }
  }

  // ---------------------------------------------------------------------
  // Board-level consequences

  /** A board without open bombs that holds 10 bombs has at most 71 open
      cells, and exactly 71 when every safe cell is open. */
  lemma OpenCountBound(b: Board)
    requires NoOpenBomb(b) && BombCount(b) == 10
    ensures OpenCount(b) <= 71
    ensures OpenCount(b) == 71 <==> forall p {:trigger At(b, p)} :: InGrid(p) ==> At(b, p).isOpen || At(b, p).isBomb
  {
    forall i, j | 0 <= i < |b| && 0 <= j < |b[i]|
      ensures !(IsOpenCell(b[i][j]) && IsBombCell(b[i][j]))
    {
      assert At(b, (i, j)) == b[i][j];
    }
    GridCountDisjoint(b, IsOpenCell, IsBombCell, Size);
    if OpenCount(b) == 71 {
      forall p | InGrid(p) ensures At(b, p).isOpen || At(b, p).isBomb {
        assert IsOpenCell(b[p.0][p.1]) || IsBombCell(b[p.0][p.1]);
      }
    } else {
      if forall p {:trigger At(b, p)} :: InGrid(p) ==> At(b, p).isOpen || At(b, p).isBomb {
        forall i, j | 0 <= i < |b| && 0 <= j < |b[i]|
          ensures IsOpenCell(b[i][j]) || IsBombCell(b[i][j])
        {
          assert At(b, (i, j)) == b[i][j];
        }
        assert false;
      }
    }
  }

  lemma {:induction false} BombsAmongSame(a: Board, b: Board, qs: seq<Pos>)
    requires AllInGrid(qs)
    requires SameBombs(a, b)
    ensures BombsAmong(a, qs) == BombsAmong(b, qs)
  {
    if qs != [] {
      BombsAmongSame(a, b, qs[..|qs| - 1]);
    }
  }

  /** Counting the neighbours that hold a bomb is counting the neighbours
      that are in the bomb list, when the board's bombs are the list's. */
  lemma {:induction false} BombsAmongCountIn(b: Board, qs: seq<Pos>, bombs: seq<Pos>)
    requires AllInGrid(qs)
    requires forall p {:trigger At(b, p)} :: InGrid(p) ==> (At(b, p).isBomb <==> p in bombs)
    ensures BombsAmong(b, qs) == CountIn(qs, Elems(bombs))
  {
    if qs != [] {
      BombsAmongCountIn(b, qs[..|qs| - 1], bombs);
    }
  }

  /** Boards with the same bombs agree on the bomb count and on every
      cell's number of neighbouring bombs, which is at most 8. */
  lemma SameBombsCounts(a: Board, b: Board)
    requires SameBombs(a, b)
    ensures BombCount(a) == BombCount(b)
    ensures forall p :: NeighbourBombs(a, p) == NeighbourBombs(b, p) <= 8
  {
    forall i, j | 0 <= i < |a| && 0 <= j < |a[i]|
      ensures IsBombCell(a[i][j]) <==> IsBombCell(b[i][j])
    {
      assert At(a, (i, j)) == a[i][j] && At(b, (i, j)) == b[i][j];
    }
    GridCountMono(a, b, IsBombCell, IsBombCell);
    GridCountMono(b, a, IsBombCell, IsBombCell);
    forall p ensures NeighbourBombs(a, p) == NeighbourBombs(b, p) <= 8 {
      BombsAmongSame(a, b, Siblings(p.0, p.1));
      BombsAmongAtMost(b, Siblings(p.0, p.1));
    }
  }

  /** On a board with correct counts, a safe cell's count is a number no
      larger than its number of neighbours. */
  lemma CountsBounded(b: Board, p: Pos)
    requires CountsCorrect(b) && InGrid(p) && !At(b, p).isBomb
    ensures At(b, p).sibblingBomb.Num? && At(b, p).sibblingBomb.n <= |Siblings(p.0, p.1)| <= 8
  {
    BombsAmongAtMost(b, Siblings(p.0, p.1));
    SiblingsCount(p.0, p.1);
  }

  lemma {:induction false} BombsAmongAtMost(b: Board, qs: seq<Pos>)
    requires AllInGrid(qs)
    ensures BombsAmong(b, qs) <= |qs|
  {
    if qs != [] {
      BombsAmongAtMost(b, qs[..|qs| - 1]);
    }
  }

  /** Opening cells never closes one, never moves a bomb or a count, and
      raises the open count by at least one if it opens a closed cell. */
  lemma OpenedFacts(b: Board, ps: set<Pos>)
    ensures forall p {:trigger At(Opened(b, ps), p)} :: InGrid(p) ==> At(Opened(b, ps), p) == if p in ps then At(b, p).(isOpen := true) else At(b, p)
    ensures SameBombs(b, Opened(b, ps))
    ensures OpenCount(b) <= OpenCount(Opened(b, ps))
    ensures (exists p :: p in ps && InGrid(p) && !At(b, p).isOpen) ==> OpenCount(b) < OpenCount(Opened(b, ps))
    ensures (forall p {:trigger At(b, p)} {:trigger p in ps} :: p in ps && InGrid(p) ==> !At(b, p).isBomb) && NoOpenBomb(b) ==> NoOpenBomb(Opened(b, ps))
  {
    var o := Opened(b, ps);
    GridCountMono(b, o, IsOpenCell, IsOpenCell);
    if p :| p in ps && InGrid(p) && !At(b, p).isOpen {
      var x := b[p.0][p.1].(isOpen := true);
      var mid := b[p.0 := b[p.0][p.1 := x]];
      GridCountUpdate(b, p.0, p.1, x, IsOpenCell);
      GridCountMono(mid, o, IsOpenCell, IsOpenCell);
    }
  }

  /** Two boards that agree on every cell are the same board. */
  lemma BoardsEqual(a: Board, c: Board)
    requires forall p {:trigger At(a, p)} :: InGrid(p) ==> At(a, p) == At(c, p)
    ensures a == c
  {
    forall i | 0 <= i < Size ensures a[i] == c[i] {
      forall j | 0 <= j < Size ensures a[i][j] == c[i][j] {
        assert At(a, (i, j)) == a[i][j];
      }
    }
  }

  /** Opening one set of cells and then another opens their union. */
  lemma OpenedUnion(b: Board, s: set<Pos>, t: set<Pos>)
    ensures Opened(Opened(b, s), t) == Opened(b, s + t)
  {
    OpenedFacts(b, s);
    OpenedFacts(Opened(b, s), t);
    OpenedFacts(b, s + t);
    BoardsEqual(Opened(Opened(b, s), t), Opened(b, s + t));
  }

  /** Opening cells keeps every count correct. */
  lemma CountsCorrectOpened(b: Board, ps: set<Pos>)
    requires CountsCorrect(b)
    ensures CountsCorrect(Opened(b, ps))
  {
    OpenedFacts(b, ps);
    SameBombsCounts(b, Opened(b, ps));
  }
}
