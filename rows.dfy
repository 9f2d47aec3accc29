/** Rows of settled cells (game_helpers in scripts.js): sorting the settled
    cells by row when a piece lands, `move_above_blocks_down`, and
    `clear_full_row` as a specification function together with what it
    does on a board whose settled cells are sorted by row. */
module Rows {
  import opened Utils
  import opened Grid

  /** The key `clear_full_row` splits the settled cells by. */
  function RowOf(c: Cell): int
  {
    c.y
  }

  /** The key it then groups the runs by. */
  function RunLength(run: seq<Cell>): int
  {
    |run|
  }

  /** Ascending by row, the order the settled cells are kept in. */
  predicate Sorted(s: seq<Cell>)
  {
    forall i, j :: 0 <= i < j < |s| ==> s[i].y <= s[j].y
  }

  // ---------------------------------------------------------------------
  // Row filters
  // ---------------------------------------------------------------------

  /** The cells of row `y`, in order. */
  function RowCells(s: seq<Cell>, y: int): seq<Cell>
  {
    Select(RowOf, s, y)
  }

  /** A row is full when it holds exactly `w` cells. */
  predicate FullRow(s: seq<Cell>, w: int, y: int)
  {
    |RowCells(s, y)| == w
  }

  /** The rows of the settled cells that are full. */
  function FullRowYs(s: seq<Cell>, w: int): set<int>
  {
    set i | 0 <= i < |s| && FullRow(s, w, s[i].y) :: s[i].y
  }

  /** `y` is the topmost (smallest) full row. */
  predicate TopFullRow(s: seq<Cell>, w: int, y: int)
  {
    y in FullRowYs(s, w) && forall y' :: y' in FullRowYs(s, w) ==> y <= y'
  }

  /** `filter(([x, y]) => y !== row)`: the cells outside row `row`, in order. */
  function RowRemoved(s: seq<Cell>, row: int): seq<Cell>
  {
    if s == [] then []
    else RowRemoved(s[..|s| - 1], row) + (if s[|s| - 1].y != row then [s[|s| - 1]] else [])
  }

  /** The cells outside every row of `rows`, in order. */
  function RowsRemoved(s: seq<Cell>, rows: set<int>): seq<Cell>
  {
    if s == [] then []
    else RowsRemoved(s[..|s| - 1], rows) + (if s[|s| - 1].y !in rows then [s[|s| - 1]] else [])
  }

  /** What is left after removing rows is exactly the cells of the other
      rows. */
  lemma {:induction false} RowsRemovedMembers(s: seq<Cell>, rows: set<int>)
    ensures forall c :: c in RowsRemoved(s, rows) <==> c in s && c.y !in rows
  {
    if s != [] {
      var s' := s[..|s| - 1];
      RowsRemovedMembers(s', rows);
      assert s == s' + [s[|s| - 1]];
    }
  }

  /** Removing a row removes exactly the cells of that row. */
  lemma {:induction false} RowRemovedCount(s: seq<Cell>, row: int)
    ensures |RowRemoved(s, row)| + |RowCells(s, row)| == |s|
  {
    if s != [] {
      RowRemovedCount(s[..|s| - 1], row);
    }
  }

  lemma {:induction false} RowRemovedOfRowsRemoved(s: seq<Cell>, rows: set<int>, row: int)
    ensures RowRemoved(RowsRemoved(s, rows), row) == RowsRemoved(s, rows + {row})
  {
    if s != [] {
      var s' := s[..|s| - 1];
      RowRemovedOfRowsRemoved(s', rows, row);
      var p := RowsRemoved(s', rows);
      var x := s[|s| - 1];
      if x.y !in rows {
        assert RowsRemoved(s, rows) == p + [x];
        assert (p + [x])[..|p|] == p;
        assert RowRemoved(p + [x], row) == RowRemoved(p, row) + (if x.y != row then [x] else []);
        assert RowsRemoved(s, rows + {row}) == RowsRemoved(s', rows + {row}) + (if x.y != row then [x] else []);
      } else {
        assert RowsRemoved(s, rows) == p;
        assert RowsRemoved(s, rows + {row}) == RowsRemoved(s', rows + {row});
      }
    }
  }

  lemma {:induction false} RowsRemovedNone(s: seq<Cell>)
    ensures RowsRemoved(s, {}) == s
  {
    if s != [] {
      RowsRemovedNone(s[..|s| - 1]);
      assert s[..|s| - 1] + [s[|s| - 1]] == s;
    }
  }

  /** Removing other rows leaves the cells of row `y` as they were. */
  lemma {:induction false} RowCellsOfRowsRemoved(s: seq<Cell>, rows: set<int>, y: int)
    requires y !in rows
    ensures RowCells(RowsRemoved(s, rows), y) == RowCells(s, y)
  {
    if s != [] {
      var s' := s[..|s| - 1];
      var x := s[|s| - 1];
      assert s' + [x] == s;
      RowCellsOfRowsRemoved(s', rows, y);
      RowCellsSnoc(s', x, y);
      if x.y !in rows {
        assert RowsRemoved(s, rows) == RowsRemoved(s', rows) + [x];
        RowCellsSnoc(RowsRemoved(s', rows), x, y);
      } else {
        assert RowsRemoved(s, rows) == RowsRemoved(s', rows);
      }
    }
  }

  lemma MulSucc(w: int, n: int)
    ensures w * (n + 1) == w * n + w
  {
  }

  /** Removing a row leaves none of its cells. */
  lemma {:induction false} RowCellsOfRemovedRow(s: seq<Cell>, rows: set<int>, y: int)
    requires y in rows
    ensures RowCells(RowsRemoved(s, rows), y) == []
  {
    if s != [] {
      var s' := s[..|s| - 1];
      var x := s[|s| - 1];
      RowCellsOfRemovedRow(s', rows, y);
      if x.y !in rows {
        assert RowsRemoved(s, rows) == RowsRemoved(s', rows) + [x];
        RowCellsSnoc(RowsRemoved(s', rows), x, y);
      } else {
        assert RowsRemoved(s, rows) == RowsRemoved(s', rows);
      }
    }
  }

  /** Removing full rows takes away exactly `w` cells per row. */
  lemma {:induction false} RowsRemovedCount(s: seq<Cell>, rows: set<int>, w: int)
    requires forall r :: r in rows ==> FullRow(s, w, r)
    ensures |RowsRemoved(s, rows)| == |s| - w * |rows|
    decreases rows
  {
    if exists r :: r in rows {
      var r :| r in rows;
      var rest := rows - {r};
      RowsRemovedCount(s, rest, w);
      var t := RowsRemoved(s, rest);
      assert RowsRemoved(s, rows) == RowRemoved(t, r) by {
        RowRemovedOfRowsRemoved(s, rest, r);
        assert rest + {r} == rows;
      }
      assert |RowRemoved(t, r)| == |t| - w by {
        RowRemovedCount(t, r);
        RowCellsOfRowsRemoved(s, rest, r);
      }
      assert |rows| == |rest| + 1;
      MulSucc(w, |rest|);
    } else {
      assert rows == {};
      RowsRemovedNone(s);
    }
  }

  /** Removing a row that holds none of the cells changes nothing. */
  lemma {:induction false} RowRemovedAbsent(s: seq<Cell>, row: int)
    requires forall i :: 0 <= i < |s| ==> s[i].y != row
    ensures RowRemoved(s, row) == s
  {
    if s != [] {
      RowRemovedAbsent(s[..|s| - 1], row);
      assert s[..|s| - 1] + [s[|s| - 1]] == s;
    }
  }

  lemma {:induction false} RowsRemovedSorted(s: seq<Cell>, rows: set<int>)
    requires Sorted(s)
    ensures Sorted(RowsRemoved(s, rows))
  {
    if s != [] {
      var s' := s[..|s| - 1];
      var x := s[|s| - 1];
      assert Sorted(s');
      RowsRemovedSorted(s', rows);
      var p := RowsRemoved(s', rows);
      RowsRemovedMembers(s', rows);
      forall i | 0 <= i < |p| ensures p[i].y <= x.y {
        assert p[i] in p;
        var j :| 0 <= j < |s'| && s'[j] == p[i];
      }
    }
  }

  // ---------------------------------------------------------------------
  // Settling: the stable sort by row
  // ---------------------------------------------------------------------

  /** Inserts `c` after every cell whose row is not below `c`'s. */
  function InsertByRow(s: seq<Cell>, c: Cell): seq<Cell>
  {
    if s == [] || s[|s| - 1].y <= c.y then s + [c]
    else InsertByRow(s[..|s| - 1], c) + [s[|s| - 1]]
  }

  /** The order `sort((a, b) => a[1] - b[1])` gives: ascending by row, cells
      of the same row in their original order (the sort is stable). */
  function SortByRow(s: seq<Cell>): seq<Cell>
  {
    if s == [] then [] else InsertByRow(SortByRow(s[..|s| - 1]), s[|s| - 1])
  }

  lemma {:induction false} InsertByRowMultiset(s: seq<Cell>, c: Cell)
    ensures multiset(InsertByRow(s, c)) == multiset(s) + multiset{c}
  {
    if s != [] && s[|s| - 1].y > c.y {
      var s' := s[..|s| - 1];
      assert s' + [s[|s| - 1]] == s;
      InsertByRowMultiset(s', c);
    }
  }

  lemma {:induction false} InsertByRowSorted(s: seq<Cell>, c: Cell)
    requires Sorted(s)
    ensures Sorted(InsertByRow(s, c))
  {
    if s != [] && s[|s| - 1].y > c.y {
      var s' := s[..|s| - 1];
      var l := s[|s| - 1];
      assert s' + [l] == s;
      assert Sorted(s');
      InsertByRowSorted(s', c);
      InsertByRowMultiset(s', c);
      var t := InsertByRow(s', c);
      forall i | 0 <= i < |t| ensures t[i].y <= l.y {
        assert t[i] in multiset(t);
        if t[i] != c {
          assert t[i] in multiset(s');
          var j :| 0 <= j < |s'| && s'[j] == t[i];
        }
      }
    }
  }

  lemma {:induction false} InsertByRowRows(s: seq<Cell>, c: Cell, y: int)
    requires Sorted(s)
    ensures RowCells(InsertByRow(s, c), y) == RowCells(s, y) + (if c.y == y then [c] else [])
  {
    if s == [] || s[|s| - 1].y <= c.y {
      assert (s + [c])[..|s|] == s;
    } else {
      var s' := s[..|s| - 1];
      var l := s[|s| - 1];
      assert s' + [l] == s;
      assert Sorted(s');
      InsertByRowRows(s', c, y);
      var t := InsertByRow(s', c);
      assert (t + [l])[..|t|] == t;
      assert RowCells(t + [l], y) == RowCells(t, y) + (if l.y == y then [l] else []);
      if c.y == y {
        assert l.y != y;
      }
    }
  }

  /** The cells a landing adds end up sorted by row, nothing is lost or
      duplicated, and each row keeps its cells in their original order. */
  lemma {:induction false} SortByRowProperties(s: seq<Cell>)
    ensures Sorted(SortByRow(s))
    ensures multiset(SortByRow(s)) == multiset(s)
    ensures |SortByRow(s)| == |s|
    ensures forall y :: RowCells(SortByRow(s), y) == RowCells(s, y)
  {
    if s != [] {
      var s' := s[..|s| - 1];
      var x := s[|s| - 1];
      assert s' + [x] == s;
      SortByRowProperties(s');
      InsertByRowSorted(SortByRow(s'), x);
      InsertByRowMultiset(SortByRow(s'), x);
      forall y ensures RowCells(SortByRow(s), y) == RowCells(s, y) {
        InsertByRowRows(SortByRow(s'), x, y);
      }
      assert |SortByRow(s)| == |multiset(SortByRow(s))|;
    }
  }

  // ---------------------------------------------------------------------
  // move_above_blocks_down
  // ---------------------------------------------------------------------

  /** The settled cells after row `removedY` is gone: every cell above it
      drops one row, every other cell stays where it is. */
  function MoveAboveBlocksDown(coords: seq<Cell>, removedY: int): (moved: seq<Cell>)
    ensures |moved| == |coords|
    ensures forall i :: 0 <= i < |coords| ==>
              moved[i].x == coords[i].x &&
              (coords[i].y < removedY ==> moved[i].y == coords[i].y + 1) &&
              (coords[i].y >= removedY ==> moved[i].y == coords[i].y)
  {
    if coords == [] then []
    else
      var c := coords[0];
      [if c.y < removedY then Cell(c.x, c.y + 1) else c] + MoveAboveBlocksDown(coords[1..], removedY)
  }

  /** Dropping the cells above a row keeps the cells sorted by row. */
  lemma MoveAboveBlocksDownSorted(coords: seq<Cell>, removedY: int)
    requires Sorted(coords)
    ensures Sorted(MoveAboveBlocksDown(coords, removedY))
  {
    var moved := MoveAboveBlocksDown(coords, removedY);
    forall i, j | 0 <= i < j < |moved| ensures moved[i].y <= moved[j].y {
      assert coords[i].y <= coords[j].y;
    }
  }

  /** Shifting works cell by cell, so it distributes over appending. */
  lemma MoveAboveBlocksDownSnoc(coords: seq<Cell>, x: Cell, removedY: int)
    ensures MoveAboveBlocksDown(coords + [x], removedY) ==
            MoveAboveBlocksDown(coords, removedY) + [if x.y < removedY then Cell(x.x, x.y + 1) else x]
  {
    var a := MoveAboveBlocksDown(coords + [x], removedY);
    var b := MoveAboveBlocksDown(coords, removedY) + [if x.y < removedY then Cell(x.x, x.y + 1) else x];
    forall i | 0 <= i < |a| ensures a[i] == b[i] {
      if i < |coords| {
        assert (coords + [x])[i] == coords[i];
      }
    }
  }

  /** After the shift, row `y` has as many cells as the row one up had,
      when `y` is at or above `removedY`, plus as many as row `y` itself
      had, when `y` is at or below it. Only the counts are stated. */
  lemma {:induction false} MovedRowCount(coords: seq<Cell>, removedY: int, y: int)
    ensures |RowCells(MoveAboveBlocksDown(coords, removedY), y)| ==
            (if y <= removedY then |RowCells(coords, y - 1)| else 0) +
            (if y >= removedY then |RowCells(coords, y)| else 0)
  {
    if coords != [] {
      var c' := coords[..|coords| - 1];
      var x := coords[|coords| - 1];
      var m' := MoveAboveBlocksDown(c', removedY);
      var x' := if x.y < removedY then Cell(x.x, x.y + 1) else x;
      assert c' + [x] == coords;
      MovedRowCount(c', removedY, y);
      MoveAboveBlocksDownSnoc(c', x, removedY);
      RowCountSnoc(m', x', y);
      RowCountSnoc(c', x, y);
      RowCountSnoc(c', x, y - 1);
    }
  }

  // ---------------------------------------------------------------------
  // clear_full_row
  // ---------------------------------------------------------------------

  /** The `$.each` loop of `clear_full_row`: removes, one after the other,
      the row of the first cell of each run in `runs`. */
  function RemoveEach(fixed: seq<Cell>, runs: seq<seq<Cell>>): seq<Cell>
    requires forall k :: 0 <= k < |runs| ==> runs[k] != []
  {
    if runs == [] then fixed
    else RowRemoved(RemoveEach(fixed, runs[..|runs| - 1]), runs[|runs| - 1][0].y)
  }

  /** The rows of the first cells of `runs`. */
  function RunRows(runs: seq<seq<Cell>>): set<int>
    requires forall k :: 0 <= k < |runs| ==> runs[k] != []
  {
    set k | 0 <= k < |runs| :: runs[k][0].y
  }

  lemma {:induction false} RemoveEachIsRowsRemoved(fixed: seq<Cell>, runs: seq<seq<Cell>>)
    requires forall k :: 0 <= k < |runs| ==> runs[k] != []
    ensures RemoveEach(fixed, runs) == RowsRemoved(fixed, RunRows(runs))
  {
    if runs == [] {
      RowsRemovedNone(fixed);
      assert RunRows(runs) == {};
    } else {
      var n := |runs|;
      RemoveEachIsRowsRemoved(fixed, runs[..n - 1]);
      RowRemovedOfRowsRemoved(fixed, RunRows(runs[..n - 1]), runs[n - 1][0].y);
      assert RunRows(runs) == RunRows(runs[..n - 1]) + {runs[n - 1][0].y} by {
        forall y | y in RunRows(runs) ensures y in RunRows(runs[..n - 1]) + {runs[n - 1][0].y} {
          var k :| 0 <= k < n && runs[k][0].y == y;
          if k < n - 1 {
            assert runs[..n - 1][k] == runs[k];
          }
        }
        forall y | y in RunRows(runs[..n - 1]) ensures y in RunRows(runs) {
          var k :| 0 <= k < n - 1 && runs[..n - 1][k][0].y == y;
          assert runs[k][0].y == y;
        }
      }
    }
  }

  /** What `clear_full_row` leaves in `fixed_block` for a board `w` cells
      wide: the cells are split into runs of equal row, the runs grouped by
      their length, every run of length `w` has its row removed, and the
      cells above the row of the first such run drop one row. */
  function ClearFullRows(fixed: seq<Cell>, w: int): seq<Cell>
  {
    var runs := Runs(RowOf, fixed);
    var rowsLength := Buckets(RunLength, runs);
    if w in rowsLength then
      var full: seq<seq<Cell>> := rowsLength[w];
      SelectMembers(RunLength, runs, w);
      assert forall k :: 0 <= k < |full| ==> full[k] in runs;
      var rowY := full[0][0].y;
      MoveAboveBlocksDown(RowRemoved(RemoveEach(fixed, full), rowY), rowY)
    else fixed
  }

  /** When some run is `w` cells long, the bucket of such runs is not empty
      and none of its runs is. */
  lemma FullBucket(fixed: seq<Cell>, w: int)
    requires w in Buckets(RunLength, Runs(RowOf, fixed))
    ensures var full: seq<seq<Cell>> := Buckets(RunLength, Runs(RowOf, fixed))[w];
      full != [] && forall k :: 0 <= k < |full| ==> full[k] != []
  {
    var runs: seq<seq<Cell>> := Runs(RowOf, fixed);
    var full: seq<seq<Cell>> := Buckets(RunLength, runs)[w];
    SelectMembers(RunLength, runs, w);
    assert forall k :: 0 <= k < |full| ==> full[k] in runs;
    var j :| 0 <= j < |runs| && RunLength(runs[j]) == w;
    assert runs[j] in full;
  }

  /** `runs` are the rows of `s`: each run is nonempty and holds all the
      cells of its row, runs come in strictly ascending row order, every
      cell's row has a run, and the last run is the row of the last cell. */
  ghost predicate RunsAreRows(s: seq<Cell>, runs: seq<seq<Cell>>)
  {
    && (forall k :: 0 <= k < |runs| ==> runs[k] != [] && runs[k] == RowCells(s, runs[k][0].y))
    && (forall k, l :: 0 <= k < l < |runs| ==> runs[k][0].y < runs[l][0].y)
    && (forall i :: 0 <= i < |s| ==> exists k :: 0 <= k < |runs| && runs[k][0].y == s[i].y)
    && (s != [] ==> runs != [] && runs[|runs| - 1][0].y == s[|s| - 1].y)
  }

  /** Appending a cell adds it to its own row's cells only. */
  lemma RowCellsSnoc(s: seq<Cell>, x: Cell, y: int)
    ensures RowCells(s + [x], y) == RowCells(s, y) + (if x.y == y then [x] else [])
  {
    assert (s + [x])[..|s|] == s;
  }

  /** Appending a cell adds one to the count of its own row only. */
  lemma RowCountSnoc(s: seq<Cell>, x: Cell, y: int)
    ensures |RowCells(s + [x], y)| == |RowCells(s, y)| + (if x.y == y then 1 else 0)
  {
    RowCellsSnoc(s, x, y);
  }

  /** A cell in the same row as the last run joins that run. */
  lemma RunsJoinLastRow(s: seq<Cell>, x: Cell, prev: seq<seq<Cell>>)
    requires Sorted(s + [x]) && RunsAreRows(s, prev)
    requires prev != [] && prev[|prev| - 1][0].y == x.y
    ensures RunsAreRows(s + [x], prev[..|prev| - 1] + [prev[|prev| - 1] + [x]])
  {
    var n := |prev|;
    var s2 := s + [x];
    var runs: seq<seq<Cell>> := prev[..n - 1] + [prev[n - 1] + [x]];
    forall k | 0 <= k < |runs| ensures runs[k] != [] && runs[k] == RowCells(s2, runs[k][0].y) {
      RowCellsSnoc(s, x, runs[k][0].y);
      if k < n - 1 {
        assert runs[k] == prev[k];
        assert prev[k][0].y < prev[n - 1][0].y;
      }
    }
    forall i | 0 <= i < |s2| ensures exists k :: 0 <= k < |runs| && runs[k][0].y == s2[i].y {
      if i < |s| {
        var k :| 0 <= k < n && prev[k][0].y == s[i].y;
        assert runs[k][0].y == s2[i].y;
      } else {
        assert runs[n - 1][0].y == s2[i].y;
      }
    }
  }

  /** A sorted cell whose row is not the last run's lies below every
      earlier cell. */
  lemma NewRowBelowAll(s: seq<Cell>, x: Cell, prev: seq<seq<Cell>>)
    requires Sorted(s + [x]) && RunsAreRows(s, prev)
    requires prev == [] || prev[|prev| - 1][0].y != x.y
    ensures forall i :: 0 <= i < |s| ==> s[i].y < x.y
  {
    var n := |prev|;
    var s2 := s + [x];
    forall i | 0 <= i < |s| ensures s[i].y < x.y {
      assert s2[i] == s[i] && s2[|s|] == x;
      var k :| 0 <= k < n && prev[k][0].y == s[i].y;
      assert prev[k][0].y <= prev[n - 1][0].y;
      assert prev[n - 1][0].y == s[|s| - 1].y;
      assert s2[|s| - 1] == s[|s| - 1];
    }
  }

  /** A cell below every earlier row starts a run of its own. */
  lemma RunsStartRow(s: seq<Cell>, x: Cell, prev: seq<seq<Cell>>)
    requires Sorted(s + [x]) && RunsAreRows(s, prev)
    requires prev == [] || prev[|prev| - 1][0].y != x.y
    ensures RunsAreRows(s + [x], prev + [[x]])
  {
    var n := |prev|;
    var s2 := s + [x];
    var runs: seq<seq<Cell>> := prev + [[x]];
    NewRowBelowAll(s, x, prev);
    SelectMissingKey(RowOf, s, x.y);
    forall k | 0 <= k < |runs| ensures runs[k] != [] && runs[k] == RowCells(s2, runs[k][0].y) {
      RowCellsSnoc(s, x, runs[k][0].y);
      if k < n {
        assert runs[k] == prev[k];
        assert prev[k][0] in RowCells(s, prev[k][0].y);
        SelectMembers(RowOf, s, prev[k][0].y);
      }
    }
    forall k, l | 0 <= k < l < |runs| ensures runs[k][0].y < runs[l][0].y {
      if l == n {
        assert prev[k][0] in RowCells(s, prev[k][0].y);
        SelectMembers(RowOf, s, prev[k][0].y);
      }
    }
    forall i | 0 <= i < |s2| ensures exists k :: 0 <= k < |runs| && runs[k][0].y == s2[i].y {
      if i < |s| {
        var k :| 0 <= k < n && prev[k][0].y == s[i].y;
        assert runs[k][0].y == s2[i].y;
      } else {
        assert runs[n][0].y == s2[i].y;
      }
    }
  }

  /** One more sorted cell keeps the runs the rows. */
  lemma RunsOfSortedStep(s: seq<Cell>, x: Cell)
    requires Sorted(s + [x]) && RunsAreRows(s, Runs(RowOf, s))
    ensures RunsAreRows(s + [x], Runs(RowOf, s + [x]))
  {
    assert (s + [x])[..|s|] == s;
    var prev: seq<seq<Cell>> := Runs(RowOf, s);
    if prev != [] && RowOf(prev[|prev| - 1][0]) == RowOf(x) {
      RunsJoinLastRow(s, x, prev);
    } else {
      RunsStartRow(s, x, prev);
    }
  }

  /** On cells sorted by row, the runs are the rows. */
  lemma {:induction false} RunsOfSorted(s: seq<Cell>)
    requires Sorted(s)
    ensures RunsAreRows(s, Runs(RowOf, s))
  {
    if s != [] {
      var s' := s[..|s| - 1];
      var x := s[|s| - 1];
      assert s' + [x] == s;
      assert Sorted(s') by {
        forall i, j | 0 <= i < j < |s'| ensures s'[i].y <= s'[j].y {
          assert s'[i] == s[i] && s'[j] == s[j];
        }
      }
      RunsOfSorted(s');
      RunsOfSortedStep(s', x);
    }
  }

  /** The first element `Select` returns is the earliest element of the
      input with that key. */
  lemma {:induction false} SelectFirst<T, K>(f: T -> K, s: seq<T>, key: K) returns (k: nat)
    requires Select(f, s, key) != []
    ensures k < |s| && s[k] == Select(f, s, key)[0] && f(s[k]) == key
    ensures forall j :: 0 <= j < k ==> f(s[j]) != key
  {
    var s' := s[..|s| - 1];
    if Select(f, s', key) != [] {
      k := SelectFirst(f, s', key);
    } else {
      k := |s| - 1;
      forall j | 0 <= j < k ensures f(s[j]) != key {
        SelectMembers(f, s', key);
        assert s'[j] == s[j];
      }
    }
  }

  lemma FullRowHasRun(s: seq<Cell>, w: int, y: int)
    requires Sorted(s) && y in FullRowYs(s, w)
    ensures exists k :: 0 <= k < |Runs(RowOf, s)| && |Runs(RowOf, s)[k]| == w && Runs(RowOf, s)[k][0].y == y
  {
    var runs: seq<seq<Cell>> := Runs(RowOf, s);
    RunsOfSorted(s);
    var i :| 0 <= i < |s| && FullRow(s, w, s[i].y) && s[i].y == y;
    var k :| 0 <= k < |runs| && runs[k][0].y == s[i].y;
    assert |runs[k]| == w;
  }

  lemma FullRunIsFullRow(s: seq<Cell>, w: int, y: int, k: int)
    requires Sorted(s)
    requires 0 <= k < |Runs(RowOf, s)| && |Runs(RowOf, s)[k]| == w && Runs(RowOf, s)[k][0].y == y
    ensures y in FullRowYs(s, w)
  {
    var runs: seq<seq<Cell>> := Runs(RowOf, s);
    RunsOfSorted(s);
    assert runs[k] != [] && runs[k] == RowCells(s, y);
    SelectMembers(RowOf, s, y);
    assert runs[k][0] in RowCells(s, y);
    var i :| 0 <= i < |s| && s[i] == runs[k][0];
    assert FullRow(s, w, s[i].y);
  }

  /** On cells sorted by row, a row is full exactly when it is the row of a
      run of length `w`. */
  lemma FullRowIsFullRun(s: seq<Cell>, w: int, y: int)
    requires Sorted(s)
    ensures y in FullRowYs(s, w) ==> exists k :: 0 <= k < |Runs(RowOf, s)| && |Runs(RowOf, s)[k]| == w && Runs(RowOf, s)[k][0].y == y
    ensures (exists k :: 0 <= k < |Runs(RowOf, s)| && |Runs(RowOf, s)[k]| == w && Runs(RowOf, s)[k][0].y == y) ==> y in FullRowYs(s, w)
  {
    if y in FullRowYs(s, w) {
      FullRowHasRun(s, w, y);
    }
    if exists k :: 0 <= k < |Runs(RowOf, s)| && |Runs(RowOf, s)[k]| == w && Runs(RowOf, s)[k][0].y == y {
      var k :| 0 <= k < |Runs(RowOf, s)| && |Runs(RowOf, s)[k]| == w && Runs(RowOf, s)[k][0].y == y;
      FullRunIsFullRow(s, w, y, k);
    }
  }

  lemma FullRunRows(s: seq<Cell>, w: int)
    requires Sorted(s)
    ensures var full: seq<seq<Cell>> := Select(RunLength, Runs(RowOf, s), w);
      && (forall k :: 0 <= k < |full| ==> full[k] != [])
      && RunRows(full) == FullRowYs(s, w)
  {
    var runs: seq<seq<Cell>> := Runs(RowOf, s);
    var full: seq<seq<Cell>> := Select(RunLength, runs, w);
    SelectMembers(RunLength, runs, w);
    assert forall k :: 0 <= k < |full| ==> full[k] in runs;
    forall y | y in RunRows(full) ensures y in FullRowYs(s, w) {
      FullRowIsFullRun(s, w, y);
      var j :| 0 <= j < |full| && full[j][0].y == y;
      assert full[j] in full;
      var k :| 0 <= k < |runs| && runs[k] == full[j];
      assert |runs[k]| == w && runs[k][0].y == y;
    }
    forall y | y in FullRowYs(s, w) ensures y in RunRows(full) {
      FullRowIsFullRun(s, w, y);
      var k :| 0 <= k < |runs| && |runs[k]| == w && runs[k][0].y == y;
      assert runs[k] in full;
      var j :| 0 <= j < |full| && full[j] == runs[k];
    }
  }

  lemma FirstFullRunIsTop(s: seq<Cell>, w: int)
    requires Sorted(s)
    requires Select(RunLength, Runs(RowOf, s), w) != []
    ensures var full: seq<seq<Cell>> := Select(RunLength, Runs(RowOf, s), w);
      full[0] != [] && TopFullRow(s, w, full[0][0].y)
  {
    var runs: seq<seq<Cell>> := Runs(RowOf, s);
    var full: seq<seq<Cell>> := Select(RunLength, runs, w);
    FullRunRows(s, w);
    RunsOfSorted(s);
    var k0 := SelectFirst(RunLength, runs, w);
    var rowY := full[0][0].y;
    assert rowY in RunRows(full);
    forall y' | y' in FullRowYs(s, w) ensures rowY <= y' {
      FirstFullRunAbove(s, w, k0, y');
    }
  }

  /** No full row lies above the first run of length `w`. */
  lemma FirstFullRunAbove(s: seq<Cell>, w: int, k0: nat, y': int)
    requires Sorted(s) && k0 < |Runs(RowOf, s)|
    requires forall j :: 0 <= j < k0 ==> RunLength(Runs(RowOf, s)[j]) != w
    requires y' in FullRowYs(s, w)
    ensures Runs(RowOf, s)[k0] != [] && Runs(RowOf, s)[k0][0].y <= y'
  {
    var runs: seq<seq<Cell>> := Runs(RowOf, s);
    RunsOfSorted(s);
    FullRowIsFullRun(s, w, y');
    var k :| 0 <= k < |runs| && |runs[k]| == w && runs[k][0].y == y';
    assert RunLength(runs[k]) == w;
    assert k >= k0;
  }

  /** The runs of length `w` of sorted cells: all non-empty, their rows are
      the full rows, and the first of them is the topmost full row. */
  lemma FullRuns(s: seq<Cell>, w: int)
    requires Sorted(s)
    ensures var full: seq<seq<Cell>> := Select(RunLength, Runs(RowOf, s), w);
      && (forall k :: 0 <= k < |full| ==> full[k] != [])
      && RunRows(full) == FullRowYs(s, w)
      && (full != [] <==> FullRowYs(s, w) != {})
      && (full != [] ==> TopFullRow(s, w, full[0][0].y))
  {
    var full: seq<seq<Cell>> := Select(RunLength, Runs(RowOf, s), w);
    FullRunRows(s, w);
    if full != [] {
      FirstFullRunIsTop(s, w);
      assert full[0][0].y in RunRows(full);
    } else {
      assert RunRows(full) == {};
    }
  }

  /** `clear_full_row` on cells sorted by row, for a board at least one cell
      wide: with no full row nothing changes; otherwise every full row is
      removed and the cells above the TOPMOST full row (only that one) drop
      one row. */
  lemma ClearFullRowsSorted(s: seq<Cell>, w: int)
    requires Sorted(s) && w > 0
    ensures FullRowYs(s, w) == {} ==> ClearFullRows(s, w) == s
    ensures forall ystar :: TopFullRow(s, w, ystar) ==>
              ClearFullRows(s, w) == MoveAboveBlocksDown(RowsRemoved(s, FullRowYs(s, w)), ystar)
  {
    var runs: seq<seq<Cell>> := Runs(RowOf, s);
    var full: seq<seq<Cell>> := Select(RunLength, runs, w);
    FullRuns(s, w);
    assert w in Buckets(RunLength, runs) <==> full != [] by {
      SelectMembers(RunLength, runs, w);
      if full != [] {
        assert full[0] in runs;
        var k :| 0 <= k < |runs| && runs[k] == full[0];
        assert w in Keys(RunLength, runs);
      }
      if w in Keys(RunLength, runs) {
        var k :| 0 <= k < |runs| && RunLength(runs[k]) == w;
        assert runs[k] in full;
      }
    }
    if full != [] {
      var rowY := full[0][0].y;
      RemoveEachIsRowsRemoved(s, full);
      var kept := RowsRemoved(s, FullRowYs(s, w));
      RowsRemovedMembers(s, FullRowYs(s, w));
      assert forall i :: 0 <= i < |kept| ==> kept[i] in kept;
      RowRemovedAbsent(kept, rowY);
      assert ClearFullRows(s, w) == MoveAboveBlocksDown(kept, rowY);
    }
  }

  /** With exactly one full row (the common case): its `w` cells are removed,
      the cells above it drop one row, and the cells below it stay put. */
  lemma ClearSingleFullRow(s: seq<Cell>, w: int, ystar: int)
    requires Sorted(s) && w > 0
    requires FullRowYs(s, w) == {ystar}
    ensures ClearFullRows(s, w) == MoveAboveBlocksDown(RowRemoved(s, ystar), ystar)
    ensures |ClearFullRows(s, w)| == |s| - w
  {
    ClearFullRowsSorted(s, w);
    assert TopFullRow(s, w, ystar);
    RowsRemovedNone(s);
    RowRemovedOfRowsRemoved(s, {}, ystar);
    assert {} + {ystar} == {ystar};
    var i :| 0 <= i < |s| && FullRow(s, w, s[i].y) && s[i].y == ystar;
    RowRemovedCount(s, ystar);
  }

  /** Clearing on cells sorted by row takes away exactly the cells of the
      full rows, `w` per row. */
  lemma ClearFullRowsCount(s: seq<Cell>, w: int)
    requires Sorted(s) && w > 0
    ensures |ClearFullRows(s, w)| == |s| - w * |FullRowYs(s, w)|
  {
    ClearFullRowsSorted(s, w);
    if FullRowYs(s, w) != {} {
      var y0 :| y0 in FullRowYs(s, w);
      var ystar := TopRow(s, w, y0);
      forall r | r in FullRowYs(s, w) ensures FullRow(s, w, r) {
        var i :| 0 <= i < |s| && FullRow(s, w, s[i].y) && s[i].y == r;
      }
      RowsRemovedCount(s, FullRowYs(s, w), w);
    }
  }

  /** A row holding exactly `w` cells, for `w` positive, is a full row. */
  lemma RowOfWCellsIsFull(s: seq<Cell>, w: int, z: int)
    requires w > 0 && |RowCells(s, z)| == w
    ensures z in FullRowYs(s, w)
  {
    SelectMembers(RowOf, s, z);
    assert RowCells(s, z)[0] in RowCells(s, z);
    var i :| 0 <= i < |s| && s[i] == RowCells(s, z)[0];
    assert FullRow(s, w, s[i].y);
  }

  /** Once the full rows are removed, no row holds exactly `w` cells. */
  lemma KeptRowNotFull(s: seq<Cell>, w: int, z: int)
    requires w > 0
    ensures |RowCells(RowsRemoved(s, FullRowYs(s, w)), z)| != w
  {
    if z in FullRowYs(s, w) {
      RowCellsOfRemovedRow(s, FullRowYs(s, w), z);
    } else {
      RowCellsOfRowsRemoved(s, FullRowYs(s, w), z);
      if |RowCells(s, z)| == w {
        RowOfWCellsIsFull(s, w, z);
      }
    }
  }

  /** After removing the full rows and shifting above the topmost one, no
      row holds exactly `w` cells. */
  lemma ShiftedRowNotFull(s: seq<Cell>, w: int, ystar: int, y: int)
    requires w > 0 && TopFullRow(s, w, ystar)
    ensures |RowCells(MoveAboveBlocksDown(RowsRemoved(s, FullRowYs(s, w)), ystar), y)| != w
  {
    var kept := RowsRemoved(s, FullRowYs(s, w));
    MovedRowCount(kept, ystar, y);
    if y <= ystar {
      KeptRowNotFull(s, w, y - 1);
      if y == ystar {
        RowCellsOfRemovedRow(s, FullRowYs(s, w), ystar);
      }
    } else {
      KeptRowNotFull(s, w, y);
    }
  }

  /** Clearing leaves no full row behind. */
  lemma ClearedHasNoFullRow(s: seq<Cell>, w: int)
    requires Sorted(s) && w > 0
    ensures Sorted(ClearFullRows(s, w)) && FullRowYs(ClearFullRows(s, w), w) == {}
  {
    ClearFullRowsSorted(s, w);
    if FullRowYs(s, w) != {} {
      var y0 :| y0 in FullRowYs(s, w);
      var ystar := TopRow(s, w, y0);
      var kept := RowsRemoved(s, FullRowYs(s, w));
      RowsRemovedSorted(s, FullRowYs(s, w));
      MoveAboveBlocksDownSorted(kept, ystar);
      var t := MoveAboveBlocksDown(kept, ystar);
      forall i | 0 <= i < |t| ensures !FullRow(t, w, t[i].y) {
        ShiftedRowNotFull(s, w, ystar, t[i].y);
      }
    }
  }

  /** Clearing twice clears no more than clearing once. */
  lemma ClearFullRowsIdempotent(s: seq<Cell>, w: int)
    requires Sorted(s) && w > 0
    ensures ClearFullRows(ClearFullRows(s, w), w) == ClearFullRows(s, w)
  {
    ClearedHasNoFullRow(s, w);
    ClearFullRowsSorted(ClearFullRows(s, w), w);
  }

  /** Clearing keeps the settled cells sorted by row and on a `w`-by-`h`
      board. */
  lemma ClearFullRowsKeepsBoard(s: seq<Cell>, w: int, h: int)
    requires Sorted(s) && w > 0
    requires forall c :: c in s ==> OnBoard(c, w, h)
    ensures Sorted(ClearFullRows(s, w))
    ensures forall c :: c in ClearFullRows(s, w) ==> OnBoard(c, w, h)
  {
    ClearFullRowsSorted(s, w);
    if FullRowYs(s, w) != {} {
      var y0 :| y0 in FullRowYs(s, w);
      var ystar := TopRow(s, w, y0);
      var kept := RowsRemoved(s, FullRowYs(s, w));
      RowsRemovedMembers(s, FullRowYs(s, w));
      RowsRemovedSorted(s, FullRowYs(s, w));
      MoveAboveBlocksDownSorted(kept, ystar);
      assert ystar < h by {
        var i :| 0 <= i < |s| && FullRow(s, w, s[i].y) && s[i].y == ystar;
        assert OnBoard(s[i], w, h);
      }
      ShiftKeepsBoard(kept, ystar, w, h);
    }
  }

  /** Dropping the cells above a row of the board by one row keeps them on
      the board. */
  lemma ShiftKeepsBoard(kept: seq<Cell>, ystar: int, w: int, h: int)
    requires ystar < h && forall c :: c in kept ==> OnBoard(c, w, h)
    ensures forall c :: c in MoveAboveBlocksDown(kept, ystar) ==> OnBoard(c, w, h)
  {
    var moved := MoveAboveBlocksDown(kept, ystar);
    forall c | c in moved ensures OnBoard(c, w, h) {
      var j :| 0 <= j < |moved| && moved[j] == c;
      assert kept[j] in kept;
    }
  }

  /** Every non-empty set of full rows has a topmost one. */
  lemma TopRow(s: seq<Cell>, w: int, y0: int) returns (ystar: int)
    requires y0 in FullRowYs(s, w)
    ensures TopFullRow(s, w, ystar)
  {
    ystar := y0;
    var i := 0;
    while i < |s|
      invariant 0 <= i <= |s|
      invariant ystar in FullRowYs(s, w)
      invariant forall j :: 0 <= j < i && FullRow(s, w, s[j].y) ==> ystar <= s[j].y
    {
      if FullRow(s, w, s[i].y) && s[i].y < ystar {
        ystar := s[i].y;
      }
      i := i + 1;
    }
  }
}
