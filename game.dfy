/** The `App` component of src/App.js as a state machine: its state fields
    and the handlers that change them. */
module Game {
  import opened Grid
  import opened Board
  import opened Generation
  import opened Flood

  /** Safe cells on the board: 81 cells less 10 bombs. */
  const WinCount: nat := 71

  /** A dealt board: 10 bombs, none of them open, and every safe cell's
      count equal to the number of bombs around it. */
  ghost predicate Dealt(b: Board) {
    NoOpenBomb(b) && BombCount(b) == BombTotal && CountsCorrect(b)
  }

  class App {
    var board: seq<seq<Cell>>
    var cellOpened: int
    var isLose: bool
    var isPlaying: bool
    var isWin: bool

    /** What holds once a board has been dealt: the counts are right, no
        bomb is open, `cellOpened` is the number of open cells, the game is
        won exactly when every safe cell is open, and it is being played
        exactly when it is neither won nor lost. */
    ghost predicate Valid()
      reads this
    {
      && IsBoardShape(board)
      && Dealt(board)
      && cellOpened == OpenCount(board)
      && (isWin <==> cellOpened == WinCount)
      && !(isWin && isLose)
      && (isPlaying <==> !isWin && !isLose)
    }

    /** The initial state of lines 18-28: no board yet, nothing open, playing. */
    constructor ()
      ensures board == [] && cellOpened == 0
      ensures !isLose && isPlaying && !isWin
    {
      board := [];
      cellOpened := 0;
      isLose := false;
      isPlaying := true;
      isWin := false;
    }

    /** `initBoard` (lines 34-70): deals a fresh closed board whose bombs are
        the first 10 distinct positions of the random stream, and restarts
        the game. `bombs` are those positions, `used` the draws consumed. */
    method InitBoard(draws: seq<Pos>) returns (ghost bombs: seq<Pos>, ghost used: nat)
      requires AdequateDraws(draws)
      modifies this
      ensures Valid() && isPlaying && !isLose && !isWin && cellOpened == 0
      ensures 0 < used <= |draws| && bombs == KeepFirst(draws[..used]) && |bombs| == BombTotal
      ensures Placed(board, bombs)
    {
      var positions, n := BombsPosition(draws);
      var b := PlaceBombs(positions);
      PlacedCountsCorrect(b, positions);
      GridCountNone(b, IsOpenCell) by {
        forall i, j | 0 <= i < |b| && 0 <= j < |b[i]| ensures !IsOpenCell(b[i][j]) {
          assert !At(b, (i, j)).isOpen;
        }
      }
      board := b;
      cellOpened := 0;
      isLose := false;
      isPlaying := true;
      isWin := false;
      bombs, used := positions, n;
    }

    /** `openCell` (lines 90-111). Its guard reads the state the click
        handler saw, `seen`; when that cell was closed, the pending board
        gets it open, `cellOpened` is recounted, and reaching 71 wins. */
    method OpenCell(row: int, col: int, seen: Board)
      requires IsBoardShape(board) && InGrid((row, col))
      modifies this
      ensures At(seen, (row, col)).isOpen ==> unchanged(this)
      ensures !At(seen, (row, col)).isOpen ==>
        && board == Opened(old(board), {(row, col)})
        && cellOpened == OpenCount(board)
        && isWin == (old(isWin) || cellOpened == WinCount)
        && isPlaying == (old(isPlaying) && cellOpened != WinCount)
      ensures unchanged(this`isLose)
    {
      var p := (row, col);
      if !At(seen, p).isOpen {
        var b: Board := board;
        var nb := Put(b, p, At(b, p).(isOpen := true));
        OpenedFacts(b, {p});
        BoardsEqual(nb, Opened(b, {p}));
        board := nb;
        var count := OpenCount(nb);
        cellOpened := count;
        if count == WinCount {
          isWin := true;
          isPlaying := false;
        }
      }
    }

    /** `openOtherCellWithoutSibbling` (lines 113-160): the board becomes
        `b` with every cell of the cascade from `(row, col)` open, and
        `cellOpened` its number of open cells; the other fields stay. */
    method OpenOtherCellWithoutSibling(b: Board, row: int, col: int) returns (ghost cascade: seq<Pos>)
      requires InGrid((row, col))
      modifies this
      ensures FloodOf(b, (row, col), cascade)
      ensures board == Opened(b, Elems(cascade)) && cellOpened == OpenCount(board)
      ensures unchanged(this`isLose, this`isPlaying, this`isWin)
    {
      var list := CollectCascade(b, (row, col));
      var newBoard := OpenListed(b, list);
      board := newBoard;
      cellOpened := OpenCount(newBoard);
      cascade := list;
    }

    /** Lines 177-180 of `handleClick`: a click on a closed safe cell opens
        the cascade around it when its count is 0, then the cell itself
        through `openCell`, whose guard sees the cell still closed. */
    method RevealSafeCell(row: int, col: int) returns (ghost cascade: seq<Pos>)
      requires Valid() && isPlaying && InGrid((row, col))
      requires !At(board, (row, col)).isOpen && !At(board, (row, col)).isBomb
      modifies this
      ensures Valid() && !isLose
      ensures if IsEmpty(old(board), (row, col)) then FloodOf(old(board), (row, col), cascade) else cascade == []
      ensures board == Opened(old(board), Elems(cascade) + {(row, col)})
      ensures old(cellOpened) < cellOpened
      ensures isWin <==> forall q {:trigger At(board, q)} :: InGrid(q) ==> At(board, q).isOpen || At(board, q).isBomb
    {
      cascade := [];
      var p := (row, col);
      var seen: Board := board;
      if At(seen, p).sibblingBomb == Num(0) {
        cascade := OpenOtherCellWithoutSibling(seen, row, col);
        DiscoveredSafe(seen, p, cascade);
        OpenedUnion(seen, Elems(cascade), {p});
      } else {
        assert Elems(cascade) + {p} == {p};
        assert SafeSet(seen, {p});
      }
      OpenCell(row, col, seen);
      RevealSafe(seen, Elems(cascade) + {p}, p);
    }

    /** `handleClick` (lines 162-181) on a game being played. Clicking an
        open cell changes nothing; clicking a bomb loses and leaves the
        board alone; clicking a safe cell opens it, and also its cascade
        when its count is 0, raises `cellOpened`, and wins when every safe
        cell is open. The invariant is kept in every case. */
    method HandleClick(row: int, col: int) returns (ghost cascade: seq<Pos>)
      requires Valid() && isPlaying && InGrid((row, col))
      modifies this
      ensures Valid()
      ensures At(old(board), (row, col)).isOpen ==> unchanged(this)
      ensures !At(old(board), (row, col)).isOpen && At(old(board), (row, col)).isBomb ==>
        isLose && !isPlaying && board == old(board) && cellOpened == old(cellOpened)
      ensures !At(old(board), (row, col)).isOpen && !At(old(board), (row, col)).isBomb ==>
        && (if IsEmpty(old(board), (row, col)) then FloodOf(old(board), (row, col), cascade) else cascade == [])
        && board == Opened(old(board), Elems(cascade) + {(row, col)})
        && old(cellOpened) < cellOpened
        && !isLose
        && (isWin <==> forall q {:trigger At(board, q)} :: InGrid(q) ==> At(board, q).isOpen || At(board, q).isBomb)
    {
      cascade := [];
      var cellInfo := At(board, (row, col));
      if cellInfo.isOpen {
        return;
      }
      if cellInfo.isBomb {
        isLose := true;
        isPlaying := false;
        return;
      }
      cascade := RevealSafeCell(row, col);
    }
  }

  /** Opening safe cells, one of them closed, keeps the board dealt and
      raises the open count. */
  lemma RevealSafe(b: Board, ps: set<Pos>, p: Pos)
    requires Dealt(b)
    requires SafeSet(b, ps)
    requires p in ps && !At(b, p).isOpen
    ensures Dealt(Opened(b, ps))
    ensures OpenCount(b) < OpenCount(Opened(b, ps)) <= WinCount
    ensures OpenCount(Opened(b, ps)) == WinCount <==>
      forall q {:trigger At(Opened(b, ps), q)} :: InGrid(q) ==> At(Opened(b, ps), q).isOpen || At(Opened(b, ps), q).isBomb
  {
    OpenedFacts(b, ps);
    CountsCorrectOpened(b, ps);
    SameBombsCounts(b, Opened(b, ps));
    OpenCountBound(Opened(b, ps));
  }
}
