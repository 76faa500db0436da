/** The cascade of src/App.js: `openOtherCellWithoutSibbling` and its inner
    recursive `loopSibbling`, which lists every cell to open around an
    empty cell, and the `forEach` that opens the listed cells. */
module Flood {
  import opened Grid
  import opened Board

  /** No neighbour of `p` holds a bomb. */
  ghost predicate NoBombAround(b: Board, p: Pos) {
    forall q {:trigger q in Siblings(p.0, p.1)} :: q in Siblings(p.0, p.1) ==> !At(b, q).isBomb
  }

  /** `board[row][cell].sibblingBomb === 0` */
  predicate IsEmpty(b: Board, p: Pos)
    requires InGrid(p)
  {
    At(b, p).sibblingBomb == Num(0)
  }

  /** On a board with correct counts, a safe cell is empty exactly when no
      neighbour holds a bomb: the cells the cascade expands are those. */
  lemma EmptyMeansNoBombAround(b: Board, p: Pos)
    requires CountsCorrect(b) && InGrid(p) && !At(b, p).isBomb
    ensures IsEmpty(b, p) <==> NoBombAround(b, p)
  {
    BombsAmongZero(b, Siblings(p.0, p.1));
  }

  /** The positions of `qs` that do not hold a bomb, in order. */
  function KeepSafe(b: Board, qs: seq<Pos>): (r: seq<Pos>)
    requires AllInGrid(qs)
    ensures AllInGrid(r)
    ensures forall q {:trigger q in r} :: q in r <==> q in qs && !At(b, q).isBomb
    ensures Distinct(qs) ==> Distinct(r)
  {
    if qs == [] then []
    else
      var rest := KeepSafe(b, qs[1..]);
      assert forall q :: q in qs[1..] ==> q in qs;
      assert Distinct(qs) ==> qs[0] !in qs[1..] && qs[0] !in rest;
      if !At(b, qs[0]).isBomb then [qs[0]] + rest else rest
  }

  /** `getSibblings(row, cell).filter(s => !board[s].isBomb)` (lines 118-121):
      the neighbours of `p` that do not hold a bomb. */
  function SafeSiblings(b: Board, p: Pos): (r: seq<Pos>)
    ensures AllInGrid(r) && Distinct(r)
    ensures forall q {:trigger q in r} :: q in r <==> InGrid(q) && Adjacent(p, q) && !At(b, q).isBomb
  {
    KeepSafe(b, Siblings(p.0, p.1))
  }

  /** Entry `i` of the list was found as a neighbour of the start cell or
      of an earlier listed empty cell. */
  ghost predicate Reached(b: Board, start: Pos, list: seq<Pos>, i: int)
    requires AllInGrid(list) && 0 <= i < |list|
  {
    || list[i] in Siblings(start.0, start.1)
    || exists j :: 0 <= j < i && IsEmpty(b, list[j]) && list[i] in Siblings(list[j].0, list[j].1)
  }

  /** What `otherEmptySibblings` satisfies at every step: no repeats, no
      bomb, and every entry reached from the start through empty cells. */
  ghost predicate Discovered(b: Board, start: Pos, list: seq<Pos>) {
    && AllInGrid(list)
    && Distinct(list)
    && (forall i :: 0 <= i < |list| ==> !At(b, list[i]).isBomb)
    && (forall i :: 0 <= i < |list| ==> Reached(b, start, list, i))
  }

  /** Every safe neighbour of `p` is listed. */
  ghost predicate Expanded(b: Board, list: seq<Pos>, p: Pos) {
    forall q :: q in SafeSiblings(b, p) ==> q in list
  }

  /** The list the cascade from `start` must produce: sound (`Discovered`)
      and complete (the start and every listed empty cell are expanded). */
  ghost predicate FloodOf(b: Board, start: Pos, list: seq<Pos>) {
    && Discovered(b, start, list)
    && Expanded(b, list, start)
    && EmptiesExpanded(b, list, 0)
  }

  lemma ExpandedGrows(b: Board, a: seq<Pos>, c: seq<Pos>, p: Pos)
    requires a <= c && Expanded(b, a, p)
    ensures Expanded(b, c, p)
  {
    forall q | q in SafeSiblings(b, p) ensures q in c {
      var i :| 0 <= i < |a| && a[i] == q;
      assert c[i] == q;
    }
  }

  /** Appending a safe neighbour of the start or of a listed empty cell
      keeps the list `Discovered`. */
  lemma DiscoveredSnoc(b: Board, start: Pos, list: seq<Pos>, p: Pos, s: Pos)
    requires InGrid(p) && InGrid(s) && Discovered(b, start, list)
    requires p == start || (p in list && IsEmpty(b, p))
    requires s in SafeSiblings(b, p) && s !in list
    ensures Discovered(b, start, list + [s])
  {
    var next := list + [s];
    forall i | 0 <= i < |next| ensures Reached(b, start, next, i) {
      if i < |list| {
        assert Reached(b, start, list, i);
        if list[i] !in Siblings(start.0, start.1) {
          var j :| 0 <= j < i && IsEmpty(b, list[j]) && list[i] in Siblings(list[j].0, list[j].1);
          assert next[j] == list[j];
        }
      } else if p != start {
        var j :| 0 <= j < |list| && list[j] == p;
        assert next[j] == p;
      }
    }
  }

  /** What a list holds, a list it is a prefix of holds too. */
  lemma PrefixMembers(a: seq<Pos>, c: seq<Pos>)
    requires a <= c
    ensures forall q {:trigger q in c} {:trigger q in a} :: q in a ==> q in c
  {
    forall q | q in a ensures q in c {
      var i :| 0 <= i < |a| && a[i] == q;
      assert c[i] == q;
    }
  }

  /** Every empty cell listed from index `from` on is expanded. */
  ghost predicate EmptiesExpanded(b: Board, out: seq<Pos>, from: nat) {
    forall i :: from <= i < |out| && InGrid(out[i]) && IsEmpty(b, out[i]) ==> Expanded(b, out, out[i])
  }

  /** Appending a cell that is not empty keeps the empty cells expanded. */
  lemma EmptiesExpandedSnoc(b: Board, before: seq<Pos>, from: nat, s: Pos)
    requires EmptiesExpanded(b, before, from) && InGrid(s) && !IsEmpty(b, s)
    ensures EmptiesExpanded(b, before + [s], from)
  {
    var out := before + [s];
    forall i | from <= i < |out| && InGrid(out[i]) && IsEmpty(b, out[i])
      ensures Expanded(b, out, out[i])
    {
      ExpandedGrows(b, before, out, out[i]);
    }
  }

  /** After appending an empty cell and recursing into it, the empty cells
      listed before are still expanded, the appended one is, and so are
      those the recursion appended. */
  lemma EmptiesExpandedRecurse(b: Board, before: seq<Pos>, from: nat, s: Pos, out: seq<Pos>)
    requires EmptiesExpanded(b, before, from) && before + [s] <= out
    requires Expanded(b, out, s) && EmptiesExpanded(b, out, |before| + 1)
    ensures EmptiesExpanded(b, out, from)
  {
    forall i | from <= i < |out| && InGrid(out[i]) && IsEmpty(b, out[i])
      ensures Expanded(b, out, out[i])
    {
      if i < |before| {
        assert before <= out;
        ExpandedGrows(b, before, out, out[i]);
      } else if i == |before| {
        assert out[i] == s;
      }
    }
  }

  /** `loopSibbling(row, cell)` (lines 117-138): appends to the shared list
      every safe neighbour of `p` not yet listed, and recurses into each
      appended neighbour whose count is 0. The list only grows, every
      appended entry is reached from the start, the safe neighbours of `p`
      end up listed, and so do those of every empty cell it appended. */
  method LoopSiblings(b: Board, start: Pos, p: Pos, list: seq<Pos>) returns (out: seq<Pos>)
    requires InGrid(start) && InGrid(p) && Discovered(b, start, list)
    requires p == start || (p in list && IsEmpty(b, p))
    ensures Discovered(b, start, out) && list <= out
    ensures Expanded(b, out, p)
    ensures EmptiesExpanded(b, out, |list|)
    decreases AllCells() - Elems(list)
  {
    var sibs := SafeSiblings(b, p);
    out := list;
    if |sibs| > 0 {
      var k := 0;
      while k < |sibs|
        invariant 0 <= k <= |sibs|
        invariant Discovered(b, start, out) && list <= out
        invariant forall i :: 0 <= i < k ==> sibs[i] in out
        invariant EmptiesExpanded(b, out, |list|)
        invariant p == start || p in out
      {
        var s := sibs[k];
        assert s in sibs;
        ghost var prev := out;
        if s !in out {
          DiscoveredSnoc(b, start, out, p, s);
          ghost var before := out;
          out := out + [s];
          assert before <= out;
          if IsEmpty(b, s) {
            assert AllCells() - Elems(out) < AllCells() - Elems(list) by {
              InAllCells(s);
              assert s in Elems(out) && s !in Elems(list);
              assert forall x :: x in list ==> x in out;
            }
            out := LoopSiblings(b, start, s, out);
            EmptiesExpandedRecurse(b, before, |list|, s, out);
          } else {
            EmptiesExpandedSnoc(b, before, |list|, s);
          }
          assert s in out by {
            assert out[|before|] == s;
          }
        }
        PrefixMembers(prev, out);
        k := k + 1;
      }
    }
  }

  /** The cascade from `start`: `loopSibbling(row, cell)` on an empty list. */
  method CollectCascade(b: Board, start: Pos) returns (list: seq<Pos>)
    requires InGrid(start)
    ensures FloodOf(b, start, list)
  {
    list := LoopSiblings(b, start, start, []);
  }

  /** A cascade lists only cells without a bomb; a safe start cell joins
      them. */
  lemma DiscoveredSafe(b: Board, start: Pos, list: seq<Pos>)
    requires Discovered(b, start, list)
    ensures SafeSet(b, Elems(list))
    ensures InGrid(start) && !At(b, start).isBomb ==> SafeSet(b, Elems(list) + {start})
  {
    forall q | q in Elems(list) ensures InGrid(q) && !At(b, q).isBomb {
      var i :| 0 <= i < |list| && list[i] == q;
    }
  }

  /** The first `n` entries of a cascade list lie in every other list the
      cascade may produce. */
  lemma {:induction false} FloodPrefixIncluded(b: Board, start: Pos, a: seq<Pos>, c: seq<Pos>, n: nat)
    requires FloodOf(b, start, a) && FloodOf(b, start, c) && n <= |a|
    ensures forall i :: 0 <= i < n ==> a[i] in c
  {
    if n > 0 {
      FloodPrefixIncluded(b, start, a, c, n - 1);
      var x := a[n - 1];
      assert Reached(b, start, a, n - 1);
      if x in Siblings(start.0, start.1) {
        assert x in SafeSiblings(b, start);
      } else {
        var j :| 0 <= j < n - 1 && IsEmpty(b, a[j]) && x in Siblings(a[j].0, a[j].1);
        assert a[j] in c;
        var k :| 0 <= k < |c| && c[k] == a[j];
        assert Expanded(b, c, c[k]);
        assert x in SafeSiblings(b, a[j]);
      }
    }
  }

  /** The cascade determines which cells it lists: any two lists meeting
      `FloodOf` hold the same positions, so the order of the search does
      not matter. */
  lemma FloodUnique(b: Board, start: Pos, a: seq<Pos>, c: seq<Pos>)
    requires FloodOf(b, start, a) && FloodOf(b, start, c)
    ensures Elems(a) == Elems(c)
  {
    FloodPrefixIncluded(b, start, a, c, |a|);
    FloodPrefixIncluded(b, start, c, a, |c|);
  }

  /** Lines 142-148: each listed cell of the copied board is set open. */
  method OpenListed(b: Board, list: seq<Pos>) returns (nb: Board)
    requires AllInGrid(list)
    ensures nb == Opened(b, Elems(list))
  {
    nb := b;
    var k := 0;
    while k < |list|
      invariant 0 <= k <= |list|
      invariant forall p {:trigger At(nb, p)} :: InGrid(p) ==>
        At(nb, p) == if p in list[..k] then At(b, p).(isOpen := true) else At(b, p)
    {
      var s := list[k];
      assert forall p :: p in list[..k + 1] <==> p in list[..k] || p == s;
      nb := Put(nb, s, At(nb, s).(isOpen := true));
      k := k + 1;
    }
    assert list[..k] == list;
    OpenedFacts(b, Elems(list));
    BoardsEqual(nb, Opened(b, Elems(list)));
  }
}
