/** Board generation of src/App.js: `getBombsPosition` (rejection sampling
    of 10 distinct positions) and the board-building part of `initBoard`. */
module Generation {
  import opened Grid
  import opened Board

  const BombTotal: nat := 10

  /** Reference definition: the entries of `s` in order, each kept at its
      first occurrence only. */
  function KeepFirst(s: seq<Pos>): (r: seq<Pos>)
    ensures Distinct(r)
    ensures forall x :: x in r <==> x in s
    ensures |r| <= |s|
  {
    if s == [] then []
    else
      var r := KeepFirst(s[..|s| - 1]);
      var x := s[|s| - 1];
      assert forall y :: y in s <==> y in s[..|s| - 1] || y == x;
      if x in r then r else r + [x]
  }

  /** The positions `[Math.floor(Math.random() * 9), Math.floor(Math.random() * 9)]`
      the game draws, given as a stream that holds at least 10 distinct
      positions (the random source does so with probability 1). */
  ghost predicate AdequateDraws(draws: seq<Pos>) {
    AllInGrid(draws) && |Elems(draws)| >= BombTotal
  }

  /** `getBombsPosition` (src/App.js:72-88): draws until 10 distinct
      positions are collected, skipping a draw already in the list.
      `used` is the number of draws consumed. */
  method BombsPosition(draws: seq<Pos>) returns (bombs: seq<Pos>, used: nat)
    requires AdequateDraws(draws)
    ensures |bombs| == BombTotal && Distinct(bombs)
    ensures AllInGrid(bombs)
    ensures 0 < used <= |draws| && bombs == KeepFirst(draws[..used])
    ensures |KeepFirst(draws[..used - 1])| < BombTotal
  {
    bombs, used := [], 0;
    while |bombs| < BombTotal
      invariant used <= |draws|
      invariant bombs == KeepFirst(draws[..used])
      invariant used == 0 || |KeepFirst(draws[..used - 1])| < BombTotal
      invariant |bombs| <= BombTotal
      invariant AllInGrid(bombs)
      decreases |draws| - used
    {
      if used == |draws| {
        assert draws[..used] == draws;
        assert Elems(bombs) == Elems(draws);
        DistinctCard(bombs);
        assert false;
      }
      var pos := draws[used];
      assert draws[..used + 1][..used] == draws[..used];
      used := used + 1;
      if pos !in bombs {
        bombs := bombs + [pos];
      }
    }
  }

  /** Lines 53-60: every in-grid neighbour of `(row, col)` gets one more
      `sibblingBomb`; nothing else changes. */
  method IncrementSiblings(b: Board, row: int, col: int) returns (b': Board)
    ensures forall p {:trigger At(b', p)} :: InGrid(p) ==>
      At(b', p) == At(b, p).(sibblingBomb := if p in Siblings(row, col) then Inc(At(b, p).sibblingBomb) else At(b, p).sibblingBomb)
  {
    var sibs := Siblings(row, col);
    b' := b;
    var k := 0;
    while k < |sibs|
      invariant 0 <= k <= |sibs|
      invariant forall p {:trigger At(b', p)} :: InGrid(p) ==>
        At(b', p) == At(b, p).(sibblingBomb := if p in sibs[..k] then Inc(At(b, p).sibblingBomb) else At(b, p).sibblingBomb)
    {
      var s := sibs[k];
      assert s in sibs;
      var cell := At(b', s);
      b' := Put(b', s, cell.(sibblingBomb := Inc(cell.sibblingBomb)));
      assert forall p :: p in sibs[..k + 1] <==> p in sibs[..k] || p == s;
      assert s !in sibs[..k];
      k := k + 1;
    }
    assert sibs[..k] == sibs;
  }

  /** What the bomb loop of `initBoard` has produced after placing the
      bombs of `placed`, in order, on a closed board. */
  ghost predicate Placed(b: Board, placed: seq<Pos>) {
    && (forall p {:trigger At(b, p)} :: InGrid(p) ==> !At(b, p).isOpen)
    && (forall p {:trigger At(b, p)} :: InGrid(p) ==> (At(b, p).isBomb <==> p in placed))
    && (forall p {:trigger At(b, p)} :: InGrid(p) && p !in placed ==>
          At(b, p).sibblingBomb == Num(CountIn(placed, Elems(Siblings(p.0, p.1)))))
    && (forall p {:trigger At(b, p)} :: InGrid(p) && p in placed ==> !At(b, p).sibblingBomb.Num?)
  }

  /** The count of a cell that is not a bomb after one more placement. */
  lemma SafeCellStep(placed: seq<Pos>, pos: Pos, p: Pos, before: Tally, after: Tally)
    requires InGrid(pos) && InGrid(p) && p != pos
    requires before == Num(CountIn(placed, Elems(Siblings(p.0, p.1))))
    requires after == if p in Siblings(pos.0, pos.1) then Inc(before) else before
    ensures after == Num(CountIn(placed + [pos], Elems(Siblings(p.0, p.1))))
  {
    var next := placed + [pos];
    assert next[..|next| - 1] == placed;
    SiblingsSymmetric(p, pos);
  }

  /** Marking one more bomb and bumping its neighbours extends `Placed`. */
  lemma PlaceStep(b: Board, placed: seq<Pos>, pos: Pos, marked: Board, b': Board)
    requires InGrid(pos) && Placed(b, placed)
    requires marked == Put(b, pos, At(b, pos).(isBomb := true, sibblingBomb := Deleted))
    requires forall p {:trigger At(b', p)} :: InGrid(p) ==>
      At(b', p) == At(marked, p).(sibblingBomb := if p in Siblings(pos.0, pos.1) then Inc(At(marked, p).sibblingBomb) else At(marked, p).sibblingBomb)
    ensures Placed(b', placed + [pos])
  {
    var next := placed + [pos];
    assert forall p :: p in next <==> p in placed || p == pos;
    forall p | InGrid(p) && p !in next
      ensures At(b', p).sibblingBomb == Num(CountIn(next, Elems(Siblings(p.0, p.1))))
    {
      SafeCellStep(placed, pos, p, At(b, p).sibblingBomb, At(b', p).sibblingBomb);
    }
    assert !(pos in Siblings(pos.0, pos.1));
  }

  /** The `forEach` callback of lines 47-61: marks `pos` as a bomb, deleting
      its `sibblingBomb`, then bumps each of its neighbours. */
  method PlaceBomb(b: Board, ghost placed: seq<Pos>, pos: Pos) returns (b': Board)
    requires InGrid(pos) && Placed(b, placed)
    ensures Placed(b', placed + [pos])
    ensures BombCount(b') == BombCount(b) + Bit(!At(b, pos).isBomb)
  {
    var marked := Put(b, pos, At(b, pos).(isBomb := true, sibblingBomb := Deleted));
    GridCountUpdate(b, pos.0, pos.1, At(marked, pos), IsBombCell);
    b' := IncrementSiblings(marked, pos.0, pos.1);
    SameBombsCounts(marked, b');
    PlaceStep(b, placed, pos, marked, b');
  }

  /** The fresh board is the one on which no bomb has been placed yet. */
  lemma ClosedGridPlaced()
    ensures Placed(ClosedGrid(), []) && BombCount(ClosedGrid()) == 0
  {
    var g := ClosedGrid();
    forall p | InGrid(p) ensures At(g, p) == Cell(false, false, Num(0)) {
      assert g[p.0][p.1] == Cell(false, false, Num(0));
    }
    GridCountNone(g, IsBombCell);
  }

  lemma SliceSnoc(s: seq<Pos>, k: int)
    requires 0 <= k < |s|
    ensures s[..k] + [s[k]] == s[..k + 1]
  {
  }

  /** Lines 36-61 of `initBoard`: a closed board on which every listed
      position becomes a bomb (its own `sibblingBomb` deleted) and bumps
      the count of each of its neighbours. */
  method PlaceBombs(bombs: seq<Pos>) returns (b: Board)
    requires AllInGrid(bombs)
    ensures Placed(b, bombs)
    ensures Distinct(bombs) ==> BombCount(b) == |bombs|
  {
    b := ClosedGrid();
    ClosedGridPlaced();
    var k := 0;
    while k < |bombs|
      invariant 0 <= k <= |bombs|
      invariant Placed(b, bombs[..k])
      invariant Distinct(bombs) ==> BombCount(b) == k
    {
      var pos := bombs[k];
      assert Distinct(bombs) ==> pos !in bombs[..k];
      b := PlaceBomb(b, bombs[..k], pos);
      SliceSnoc(bombs, k);
      k := k + 1;
    }
    assert bombs[..k] == bombs;
  }

  /** With distinct bombs, the count that `PlaceBombs` leaves on a safe
      cell is the number of its neighbours that hold a bomb, that is, the
      size of the set of its neighbours among the bomb positions. */
  lemma PlacedCountsCorrect(b: Board, bombs: seq<Pos>)
    requires Distinct(bombs)
    requires AllInGrid(bombs)
    requires Placed(b, bombs)
    ensures CountsCorrect(b)
    ensures forall p {:trigger At(b, p)} :: InGrid(p) && !At(b, p).isBomb ==>
      At(b, p).sibblingBomb == Num(|Elems(Siblings(p.0, p.1)) * Elems(bombs)|)
  {
    forall p | InGrid(p) && !At(b, p).isBomb
      ensures At(b, p).sibblingBomb == Num(NeighbourBombs(b, p))
      ensures At(b, p).sibblingBomb == Num(|Elems(Siblings(p.0, p.1)) * Elems(bombs)|)
    {
      var sibs := Siblings(p.0, p.1);
      CountInDistinct(bombs, Elems(sibs));
      CountInDistinct(sibs, Elems(bombs));
      BombsAmongCountIn(b, sibs, bombs);
      assert Elems(bombs) * Elems(sibs) == Elems(sibs) * Elems(bombs);
    }
  }
}
