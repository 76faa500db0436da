/** Positions on the fixed 9x9 board and the neighbourhood function
    `getSibblings` of src/App.js. */
module Grid {

  /** A (row, column) pair; coordinates are plain integers because
      `getSibblings` computes `row - 1` and `row + 1` before filtering. */
  type Pos = (int, int)

  const Size: int := 9

  predicate InGrid(p: Pos) {
    0 <= p.0 && 0 <= p.1 && p.0 < Size && p.1 < Size
  }

  /** Independent reference definition of the 8-neighbourhood: a different
      position at most one step away on both axes. */
  predicate Adjacent(p: Pos, q: Pos) {
    p != q && -1 <= q.0 - p.0 <= 1 && -1 <= q.1 - p.1 <= 1
  }

  predicate AllInGrid(s: seq<Pos>) {
    forall i :: 0 <= i < |s| ==> InGrid(s[i])
  }

  predicate Distinct(s: seq<Pos>) {
    forall i, j :: 0 <= i < j < |s| ==> s[i] != s[j]
  }

  /** The array literal of `getSibblings`: the eight positions around
      `(row, col)`, in the literal's order, each once. Exactly the adjacent
      positions. */
  function Candidates(row: int, col: int): (r: seq<Pos>)
    ensures |r| == 8 && Distinct(r)
    ensures forall q {:trigger q in r} :: q in r <==> Adjacent((row, col), q)
  {
    var cs := [(row - 1, col - 1), (row - 1, col), (row - 1, col + 1),
               (row, col - 1), (row, col + 1),
               (row + 1, col - 1), (row + 1, col), (row + 1, col + 1)];
    assert forall q :: q in cs <==> Adjacent((row, col), q) by {
      forall q ensures q in cs <==> Adjacent((row, col), q) {
        if Adjacent((row, col), q) {
          var dr, dc := q.0 - row, q.1 - col;
          assert q == (row + dr, col + dc);
          if dr == -1 {
            if dc == -1 { assert q == cs[0]; }
            else if dc == 0 { assert q == cs[1]; }
            else { assert q == cs[2]; }
          } else if dr == 0 {
            if dc == -1 { assert q == cs[3]; } else { assert q == cs[4]; }
          } else {
            if dc == -1 { assert q == cs[5]; }
            else if dc == 0 { assert q == cs[6]; }
            else { assert q == cs[7]; }
          }
        }
      }
    }
    cs
  }

  /** `filter(([r, c]) => r >= 0 && c >= 0 && r < 9 && c < 9)`. */
  function KeepInGrid(ps: seq<Pos>): (qs: seq<Pos>)
    ensures forall q {:trigger q in qs} {:trigger q in ps} :: q in qs <==> q in ps && InGrid(q)
    ensures |qs| <= |ps| && AllInGrid(qs)
    ensures Distinct(ps) ==> Distinct(qs)
  {
    if ps == [] then []
    else
      var rest := KeepInGrid(ps[1..]);
      assert forall q :: q in ps[1..] ==> q in ps;
      assert Distinct(ps) ==> ps[0] !in ps[1..] && ps[0] !in rest;
      if InGrid(ps[0]) then [ps[0]] + rest else rest
  }

  /** `getSibblings(row, cell)`: the in-grid neighbours of a position,
      each listed once, never the position itself. */
  function Siblings(row: int, col: int): (s: seq<Pos>)
    ensures forall q {:trigger q in s} :: q in s <==> InGrid(q) && Adjacent((row, col), q)
    ensures AllInGrid(s) && Distinct(s)
    ensures (row, col) !in s
  {
    KeepInGrid(Candidates(row, col))
  }

  /** The neighbourhood relation is symmetric. */
  lemma SiblingsSymmetric(p: Pos, q: Pos)
    requires InGrid(p) && InGrid(q)
    ensures q in Siblings(p.0, p.1) <==> p in Siblings(q.0, q.1)
  {
  }

  /** Number of in-grid values among x - 1, x, x + 1. */
  function Span(x: int): int {
    (if 0 <= x - 1 < Size then 1 else 0) + (if 0 <= x < Size then 1 else 0)
      + (if 0 <= x + 1 < Size then 1 else 0)
  }

  function Bit(b: bool): int { if b then 1 else 0 }

  lemma KeepInGridLength(s: seq<Pos>)
    requires |s| == 8
    ensures |KeepInGrid(s)| ==
      Bit(InGrid(s[0])) + Bit(InGrid(s[1])) + Bit(InGrid(s[2])) + Bit(InGrid(s[3]))
      + Bit(InGrid(s[4])) + Bit(InGrid(s[5])) + Bit(InGrid(s[6])) + Bit(InGrid(s[7]))
  {
    assert |KeepInGrid(s[8..])| == 0;
    assert |KeepInGrid(s[7..])| == Bit(InGrid(s[7])) + |KeepInGrid(s[8..])| by { assert s[7..][1..] == s[8..]; }
    assert |KeepInGrid(s[6..])| == Bit(InGrid(s[6])) + |KeepInGrid(s[7..])| by { assert s[6..][1..] == s[7..]; }
    assert |KeepInGrid(s[5..])| == Bit(InGrid(s[5])) + |KeepInGrid(s[6..])| by { assert s[5..][1..] == s[6..]; }
    assert |KeepInGrid(s[4..])| == Bit(InGrid(s[4])) + |KeepInGrid(s[5..])| by { assert s[4..][1..] == s[5..]; }
    assert |KeepInGrid(s[3..])| == Bit(InGrid(s[3])) + |KeepInGrid(s[4..])| by { assert s[3..][1..] == s[4..]; }
    assert |KeepInGrid(s[2..])| == Bit(InGrid(s[2])) + |KeepInGrid(s[3..])| by { assert s[2..][1..] == s[3..]; }
    assert |KeepInGrid(s[1..])| == Bit(InGrid(s[1])) + |KeepInGrid(s[2..])| by { assert s[1..][1..] == s[2..]; }
    assert |KeepInGrid(s)| == Bit(InGrid(s[0])) + |KeepInGrid(s[1..])|;
  }

  /** Number of neighbours of a cell, summed row by row of its 3x3 block. */
  lemma SiblingsByRow(row: int, col: int)
    requires InGrid((row, col))
    ensures |Siblings(row, col)| == Bit(0 <= row - 1) * Span(col) + Span(col) - 1 + Bit(row + 1 < Size) * Span(col)
  {
    KeepInGridLength(Candidates(row, col));
  }

  /** A corner has 3 neighbours, another border cell 5, an interior cell 8. */
  lemma SiblingsCount(row: int, col: int)
    requires InGrid((row, col))
    ensures var border := Bit(row == 0 || row == Size - 1) + Bit(col == 0 || col == Size - 1);
            |Siblings(row, col)| == (if border == 2 then 3 else if border == 1 then 5 else 8)
  {
    SiblingsByRow(row, col);
    var up, down := Bit(0 <= row - 1), Bit(row + 1 < Size);
    var w := Span(col);
    assert w == 2 <==> (col == 0 || col == Size - 1);
    assert w == 2 || w == 3;
    assert up + down == 1 <==> (row == 0 || row == Size - 1);
    if up + down == 1 {
      assert up * w + down * w == w;
    } else {
      assert up * w + down * w == w + w;
    }
  }

  function Elems(s: seq<Pos>): set<Pos> {
    set x | x in s
  }

  /** The 81 positions of the board. */
  function AllCells(): set<Pos> {
    set r, c | 0 <= r < Size && 0 <= c < Size :: (r, c)
  }

  lemma InAllCells(p: Pos)
    requires InGrid(p)
    ensures p in AllCells()
  {
  }

  /** Number of entries of `s` that lie in `t`, counting repeats. */
  function CountIn(s: seq<Pos>, t: set<Pos>): nat {
    if s == [] then 0 else CountIn(s[..|s| - 1], t) + Bit(s[|s| - 1] in t)
  }

  lemma ElemsSnoc(s: seq<Pos>)
    requires s != []
    ensures Elems(s) == Elems(s[..|s| - 1]) + {s[|s| - 1]}
    ensures Distinct(s) ==> Distinct(s[..|s| - 1]) && s[|s| - 1] !in Elems(s[..|s| - 1])
  {
    assert forall y :: y in s <==> y in s[..|s| - 1] || y == s[|s| - 1];
  }

  /** A list without repeats has as many elements as entries. */
  lemma {:induction false} DistinctCard(s: seq<Pos>)
    requires Distinct(s)
    ensures |Elems(s)| == |s|
  {
    if s != [] {
      ElemsSnoc(s);
      DistinctCard(s[..|s| - 1]);
    }
  }

  /** Without repeats, counting entries in `t` is counting the common elements. */
  lemma {:induction false} CountInDistinct(s: seq<Pos>, t: set<Pos>)
    requires Distinct(s)
    ensures CountIn(s, t) == |Elems(s) * t|
  {
    if s != [] {
      var init, x := s[..|s| - 1], s[|s| - 1];
      ElemsSnoc(s);
      CountInDistinct(init, t);
      if x in t {
        assert Elems(s) * t == (Elems(init) * t) + {x};
      } else {
        assert Elems(s) * t == Elems(init) * t;
      }
    }
  }
}
