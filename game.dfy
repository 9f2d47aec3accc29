/** The state of a game and the `next-state` tick (scripts.js): the active
    piece with its persistent direction, the settled cells, the running
    flag, and the steps a tick takes on them -- the collision test, the
    move, the landing, the clearing of full rows. */
module Game {
  import opened Utils
  import opened Grid
  import opened Rows

  /** The standard board: 10 cells wide, 20 cells high. */
  const Width := 10
  const Height := 20

  /** The tick interval, in milliseconds, that the state records. */
  const Speed := 300

  // ---------------------------------------------------------------------
  // The tick as a function of the board
  // ---------------------------------------------------------------------

  /** The part of the state a tick changes: the active piece's cells and
      the settled cells. */
  datatype Snapshot = Snapshot(body: seq<Cell>, fixed: seq<Cell>)

  /** What `collisions` and `move_block` leave behind for a move by `d`: a
      free piece moves, a piece against a side wall stays, a landed piece
      joins the settled cells (kept sorted by row) and a fresh one-cell
      piece appears at column `anchor` of the top row. */
  function Moved(s: Snapshot, d: Vector, anchor: int, w: int, h: int): Snapshot
    requires s.body != []
  {
    match Collision(s.body[0], s.fixed, d, w, h)
    case Free => Snapshot(Translated(s.body, d), s.fixed)
    case Wall => s
    case Landed => Snapshot(SmallSquare(anchor), SortByRow(s.fixed + s.body))
  }

  /** One running tick: the move, then `clear_full_row`. */
  function Step(s: Snapshot, d: Vector, anchor: int, w: int, h: int): Snapshot
    requires s.body != []
  {
    var m := Moved(s, d, anchor, w, h);
    Snapshot(m.body, ClearFullRows(m.fixed, w))
  }

  /** The shape of the state between ticks: a one-cell piece on the board
      and settled cells on the board, sorted by row, with no full row (the
      tick clears full rows last). It does not exclude a piece that overlaps
      a settled cell, nor a settled cell listed twice: the game reaches
      both (see `SpawnOverSettledCell`). */
  predicate WellFormed(s: Snapshot, w: int, h: int)
  {
    && |s.body| == 1 && OnBoard(s.body[0], w, h)
    && Sorted(s.fixed)
    && (forall c :: c in s.fixed ==> OnBoard(c, w, h))
    && FullRowYs(s.fixed, w) == {}
  }

  /** The state a new game starts from is well formed. */
  lemma InitialWellFormed(anchor: int)
    requires 0 <= anchor < Width
    ensures WellFormed(Snapshot(SmallSquare(anchor), []), Width, Height)
  {
  }

  /** A landing adds the piece's cells to the settled cells: they grow by
      exactly the piece's size, hold the same cells as before plus the
      piece's, end up sorted by row, and each row gets the piece's cells
      after its earlier ones. */
  lemma LandingSettles(s: Snapshot, d: Vector, anchor: int, w: int, h: int)
    requires s.body != [] && Collision(s.body[0], s.fixed, d, w, h) == Landed
    ensures var m := Moved(s, d, anchor, w, h);
      && |m.fixed| == |s.fixed| + |s.body|
      && multiset(m.fixed) == multiset(s.fixed) + multiset(s.body)
      && Sorted(m.fixed)
      && (forall y :: RowCells(m.fixed, y) == RowCells(s.fixed + s.body, y))
      && m.body == [Cell(anchor, 0)]
  {
    SortByRowProperties(s.fixed + s.body);
  }

  /** A move that is not a landing leaves the settled cells alone; the piece
      moves exactly when the move is free. */
  lemma MoveOnlyWhenFree(s: Snapshot, d: Vector, anchor: int, w: int, h: int)
    requires s.body != [] && Collision(s.body[0], s.fixed, d, w, h) != Landed
    ensures Moved(s, d, anchor, w, h).fixed == s.fixed
    ensures Moved(s, d, anchor, w, h).body == s.body <==> (Collision(s.body[0], s.fixed, d, w, h) == Wall || d == Vector(0, 0))
  {
    var m := Moved(s, d, anchor, w, h);
    if Collision(s.body[0], s.fixed, d, w, h) == Free && m.body == s.body {
      assert m.body[0] == Cell(s.body[0].x + d.dx, s.body[0].y + d.dy);
    }
  }

  /** On a well-formed board, a tick that does not land changes nothing
      but the piece, and a tick against a side wall changes nothing. */
  lemma NoLandingKeepsSettled(s: Snapshot, d: Vector, anchor: int, w: int, h: int)
    requires WellFormed(s, w, h) && w > 0
    requires Collision(s.body[0], s.fixed, d, w, h) != Landed
    ensures Step(s, d, anchor, w, h).fixed == s.fixed
    ensures Collision(s.body[0], s.fixed, d, w, h) == Wall ==> Step(s, d, anchor, w, h) == s
  {
    ClearFullRowsSorted(s.fixed, w);
  }

  /** Every tick in an allowed direction, with a spawn column on the board,
      keeps the state well formed. */
  lemma StepPreservesWellFormed(s: Snapshot, d: Vector, anchor: int, w: int, h: int)
    requires WellFormed(s, w, h) && d in Moves && 0 <= anchor < w
    ensures WellFormed(Step(s, d, anchor, w, h), w, h)
  {
    var m := Moved(s, d, anchor, w, h);
    match Collision(s.body[0], s.fixed, d, w, h)
    case Free =>
      FreeMoveStaysOnBoard(s.body[0], s.fixed, d, w, h);
      assert Translated(s.body, d) == Translated([s.body[0]], d);
      ClearFullRowsKeepsBoard(s.fixed, w, h);
      ClearedHasNoFullRow(s.fixed, w);
    case Wall =>
      ClearFullRowsKeepsBoard(s.fixed, w, h);
      ClearedHasNoFullRow(s.fixed, w);
    case Landed =>
      SortByRowProperties(s.fixed + s.body);
      forall c | c in m.fixed ensures OnBoard(c, w, h) {
        assert c in multiset(m.fixed);
        assert c in s.fixed + s.body;
      }
      ClearFullRowsKeepsBoard(m.fixed, w, h);
      ClearedHasNoFullRow(m.fixed, w);
  }

  /** Settled cells on a board two cells wide: one cell in row 17 and full
      rows 18 and 19. */
  const TwoFullRows: seq<Cell> := [Cell(0, 17), Cell(0, 18), Cell(1, 18), Cell(0, 19), Cell(1, 19)]

  lemma TwoFullRowsRows(y: int)
    ensures RowCells(TwoFullRows, y) ==
      if y == 17 then [Cell(0, 17)]
      else if y == 18 then [Cell(0, 18), Cell(1, 18)]
      else if y == 19 then [Cell(0, 19), Cell(1, 19)]
      else []
  {
    var s1 := [Cell(0, 17)];
    var s2 := s1 + [Cell(0, 18)];
    var s3 := s2 + [Cell(1, 18)];
    var s4 := s3 + [Cell(0, 19)];
    assert TwoFullRows == s4 + [Cell(1, 19)];
    assert s1 == [] + [Cell(0, 17)];
    RowCellsSnoc([], Cell(0, 17), y);
    RowCellsSnoc(s1, Cell(0, 18), y);
    RowCellsSnoc(s2, Cell(1, 18), y);
    RowCellsSnoc(s3, Cell(0, 19), y);
    RowCellsSnoc(s4, Cell(1, 19), y);
  }

  lemma TwoFullRowsKept()
    ensures RowsRemoved(TwoFullRows, {18, 19}) == [Cell(0, 17)]
  {
    var rows := {18, 19};
    var s1 := [Cell(0, 17)];
    var s2 := s1 + [Cell(0, 18)];
    var s3 := s2 + [Cell(1, 18)];
    var s4 := s3 + [Cell(0, 19)];
    var s5 := s4 + [Cell(1, 19)];
    assert s5[..4] == s4 && s4[..3] == s3 && s3[..2] == s2 && s2[..1] == s1 && s1[..0] == [];
    assert RowsRemoved(s1, rows) == [Cell(0, 17)];
    assert RowsRemoved(s2, rows) == RowsRemoved(s1, rows);
    assert RowsRemoved(s3, rows) == RowsRemoved(s2, rows);
    assert RowsRemoved(s4, rows) == RowsRemoved(s3, rows);
    assert RowsRemoved(s5, rows) == RowsRemoved(s4, rows);
    assert TwoFullRows == s5;
  }

  /** Removing several full rows at once drops only the cells above the
      topmost of them: with full rows 18 and 19 on a board two cells wide,
      the lone cell of row 17 moves down one row, not two. */
  lemma MultiRowClearShiftsOnce()
    ensures ClearFullRows(TwoFullRows, 2) == [Cell(0, 18)]
  {
    var s := TwoFullRows;
    assert Sorted(s);
    TwoFullRowsRows(17);
    TwoFullRowsRows(18);
    TwoFullRowsRows(19);
    assert FullRowYs(s, 2) == {18, 19} by {
      assert FullRow(s, 2, s[1].y) && FullRow(s, 2, s[3].y);
    }
    assert TopFullRow(s, 2, 18);
    ClearFullRowsSorted(s, 2);
    TwoFullRowsKept();
  }

  /** The row counts of three cells, read off one cell at a time. */
  lemma RowCountOfThree(a: Cell, b: Cell, c: Cell, y: int)
    ensures |RowCells([a, b, c], y)| ==
            (if a.y == y then 1 else 0) + (if b.y == y then 1 else 0) + (if c.y == y then 1 else 0)
  {
    var e: seq<Cell> := [];
    var s1 := e + [a];
    var s2 := s1 + [b];
    assert RowCells(e, y) == [];
    RowCountSnoc(e, a, y);
    RowCountSnoc(s1, b, y);
    RowCountSnoc(s2, c, y);
    assert s2 + [c] == [a, b, c];
  }

  /** A single cell, or two cells of different rows, fill no row of a board
      two cells wide, so clearing leaves them alone. */
  lemma NoFullRowOfTwo(s: seq<Cell>)
    requires s == [Cell(0, 1)] || s == [Cell(0, 0), Cell(0, 1)]
    ensures FullRowYs(s, 2) == {} && ClearFullRows(s, 2) == s
  {
    forall y ensures |RowCells(s, y)| <= 1 {
      var e: seq<Cell> := [];
      assert RowCells(e, y) == [];
      RowCountSnoc(e, s[0], y);
      assert s[..1] == e + [s[0]];
      if |s| == 2 {
        RowCountSnoc(s[..1], s[1], y);
        assert s == s[..1] + [s[1]];
      } else {
        assert s == s[..1];
      }
    }
    assert FullRowYs(s, 2) == {};
    ClearFullRowsSorted(s, 2);
  }

  /** First tick on a board two wide and two high: the piece falls freely. */
  lemma FirstTick()
    ensures Step(Snapshot([Cell(0, 0)], []), Gravity, 0, 2, 2) == Snapshot([Cell(0, 1)], [])
  {
    var m := Moved(Snapshot([Cell(0, 0)], []), Gravity, 0, 2, 2);
    assert m == Snapshot([Cell(0, 1)], []);
    assert FullRowYs([], 2) == {};
    ClearFullRowsSorted([], 2);
  }

  /** Second tick: the piece lands on the floor and a new one spawns at
      column 0 of the top row. */
  lemma SecondTick()
    ensures Step(Snapshot([Cell(0, 1)], []), Gravity, 0, 2, 2) == Snapshot([Cell(0, 0)], [Cell(0, 1)])
  {
    var m := Moved(Snapshot([Cell(0, 1)], []), Gravity, 0, 2, 2);
    assert [] + [Cell(0, 1)] == [Cell(0, 1)];
    assert [Cell(0, 1)][..0] == [];
    assert SortByRow([Cell(0, 1)]) == [Cell(0, 1)];
    assert m == Snapshot([Cell(0, 0)], [Cell(0, 1)]);
    NoFullRowOfTwo([Cell(0, 1)]);
  }

  /** Third tick: the piece lands on the settled cell below it, and the new
      piece spawns on (0, 0), the cell the old one just settled in. */
  lemma ThirdTick()
    ensures Step(Snapshot([Cell(0, 0)], [Cell(0, 1)]), Gravity, 0, 2, 2) ==
            Snapshot([Cell(0, 0)], [Cell(0, 0), Cell(0, 1)])
  {
    var m := Moved(Snapshot([Cell(0, 0)], [Cell(0, 1)]), Gravity, 0, 2, 2);
    var t := [Cell(0, 1), Cell(0, 0)];
    assert [Cell(0, 1)] + [Cell(0, 0)] == t;
    assert t[..1] == [Cell(0, 1)] && [Cell(0, 1)][..0] == [];
    assert SortByRow([Cell(0, 1)]) == [Cell(0, 1)];
    assert InsertByRow([Cell(0, 1)], Cell(0, 0)) == [Cell(0, 0), Cell(0, 1)];
    assert SortByRow(t) == [Cell(0, 0), Cell(0, 1)];
    assert m == Snapshot([Cell(0, 0)], [Cell(0, 0), Cell(0, 1)]);
    NoFullRowOfTwo([Cell(0, 0), Cell(0, 1)]);
  }

  /** Nothing stops a piece from spawning on a settled cell: on a board two
      cells wide and two high, with every piece spawned at column 0, three
      ticks stack column 0 up to the top row and the new piece sits on the
      settled cell (0, 0). */
  lemma SpawnOverSettledCell()
    ensures var s3 := Step(Step(Step(Snapshot([Cell(0, 0)], []), Gravity, 0, 2, 2), Gravity, 0, 2, 2), Gravity, 0, 2, 2);
      s3 == Snapshot([Cell(0, 0)], [Cell(0, 0), Cell(0, 1)]) && s3.body[0] in s3.fixed
  {
    FirstTick();
    SecondTick();
    ThirdTick();
  }

  /** The next landing on that board pushes the piece onto the settled cells
      although its cell is already there: (0, 0) is listed twice. */
  lemma DuplicateSettledCell()
    ensures Moved(Snapshot([Cell(0, 0)], [Cell(0, 0), Cell(0, 1)]), Gravity, 0, 2, 2).fixed ==
            [Cell(0, 0), Cell(0, 0), Cell(0, 1)]
  {
    var t := [Cell(0, 0), Cell(0, 1), Cell(0, 0)];
    assert [Cell(0, 0), Cell(0, 1)] + [Cell(0, 0)] == t;
    assert t[..2] == [Cell(0, 0), Cell(0, 1)];
    assert [Cell(0, 0), Cell(0, 1)][..1] == [Cell(0, 0)] && [Cell(0, 0)][..0] == [];
    assert SortByRow([Cell(0, 0)]) == [Cell(0, 0)];
    assert SortByRow([Cell(0, 0), Cell(0, 1)]) == [Cell(0, 0), Cell(0, 1)];
    assert [Cell(0, 0), Cell(0, 1)][..1] == [Cell(0, 0)];
    assert InsertByRow([Cell(0, 0)], Cell(0, 0)) == [Cell(0, 0), Cell(0, 0)];
    assert InsertByRow([Cell(0, 0), Cell(0, 1)], Cell(0, 0)) == [Cell(0, 0), Cell(0, 0), Cell(0, 1)];
  }

  /** Row 0 then counts as full, with only one of its two columns filled,
      and is cleared. */
  lemma DuplicateRowCleared()
    ensures ClearFullRows([Cell(0, 0), Cell(0, 0), Cell(0, 1)], 2) == [Cell(0, 1)]
  {
    var s := [Cell(0, 0), Cell(0, 0), Cell(0, 1)];
    forall y ensures FullRow(s, 2, y) <==> y == 0 {
      RowCountOfThree(Cell(0, 0), Cell(0, 0), Cell(0, 1), y);
    }
    assert FullRowYs(s, 2) == {0} by {
      assert FullRow(s, 2, s[0].y);
    }
    ClearSingleFullRow(s, 2, 0);
    assert RowRemoved(s, 0) == [Cell(0, 1)] by {
      var p := [Cell(0, 0), Cell(0, 0)];
      assert s[..2] == p && p[..1] == [Cell(0, 0)] && [Cell(0, 0)][..0] == [];
      assert RowRemoved([Cell(0, 0)], 0) == [];
      assert RowRemoved(p, 0) == [];
    }
  }

  // ---------------------------------------------------------------------
  // The active piece
  // ---------------------------------------------------------------------

  /** The falling piece: its persistent direction and its cells. */
  class Piece {
    var direction: Vector
    var body: seq<Cell>

    /** A one-cell piece at column `anchor` of the top row, falling. */
    constructor (anchor: int)
      ensures direction == Gravity && body == SmallSquare(anchor)
    {
      direction := Gravity;
      body := SmallSquare(anchor);
    }

    /** `move_block`: adds `d` to every cell, coordinate by coordinate. */
    method Move(d: Vector)
      modifies this`body
      ensures body == Translated(old(body), d)
      ensures direction == old(direction)
    {
      var moved: seq<Cell> := [];
      var i := 0;
      while i < |body|
        invariant 0 <= i <= |body|
        invariant body == old(body)
        invariant |moved| == i
        invariant forall j :: 0 <= j < i ==> moved[j] == Cell(body[j].x + d.dx, body[j].y + d.dy)
      {
        var xy := Map((a: int, b: int) => a + b, [d.dx, d.dy], [body[i].x, body[i].y]);
        moved := moved + [Cell(xy[0], xy[1])];
        i := i + 1;
      }
      assert moved == Translated(body, d);
      body := moved;
    }
  }

  // ---------------------------------------------------------------------
  // The game
  // ---------------------------------------------------------------------

  /** The game state `db`. */
  class GameState {
    const width: int
    const height: int
    var block: Piece
    var fixedBlock: seq<Cell>
    var points: int
    var isGameRunning: bool
    var speed: int

    /** The board between ticks: a positive size, a falling piece, and a
        well-formed snapshot. */
    ghost predicate Valid()
      reads this, block
    {
      && 0 < width && 0 < height
      && block.direction == Gravity
      && WellFormed(State(), width, height)
    }

    /** The active piece's cells and the settled cells. */
    function State(): Snapshot
      reads this, block
    {
      Snapshot(block.body, fixedBlock)
    }

    /** `InitialState`: a 10-by-20 board, a one-cell piece at column
        `anchor` of the top row, no settled cells, no points, running, at
        300 milliseconds a tick. */
    constructor (anchor: int)
      requires 0 <= anchor < Width
      ensures Valid() && fresh(block)
      ensures width == Width && height == Height
      ensures block.direction == Gravity && block.body == [Cell(anchor, 0)]
      ensures fixedBlock == [] && points == 0 && isGameRunning && speed == Speed
    {
      width := Width;
      height := Height;
      block := new Piece(anchor);
      points := 0;
      isGameRunning := true;
      speed := Speed;
      fixedBlock := [];
    }

    /** `collisions`: true when the move by `direction` is blocked. A side
        wall leaves everything as it was; the floor or a settled cell
        settles the piece and spawns a new one at column `anchor`. */
    method Collisions(direction: Vector, anchor: int) returns (blocked: bool)
      requires block.body != []
      modifies this`fixedBlock, block`body
      ensures var outcome := Collision(old(block.body)[0], old(fixedBlock), direction, width, height);
        && (blocked <==> outcome != Free)
        && (outcome == Landed ==>
              fixedBlock == SortByRow(old(fixedBlock) + old(block.body)) && block.body == SmallSquare(anchor))
        && (outcome != Landed ==> fixedBlock == old(fixedBlock) && block.body == old(block.body))
    {
      var fx := direction.dx + block.body[0].x;
      var fy := direction.dy + block.body[0].y;
      if fx in {width, -1} {
        return true;
      }
      ContainsCellIff(fixedBlock, Cell(fx, fy));
      if fy == height || Contains(Pairs(fixedBlock), [fx, fy]) {
        fixedBlock := fixedBlock + block.body;
        fixedBlock := SortByRow(fixedBlock);
        block.body := SmallSquare(anchor);
        return true;
      }
      return false;
    }

    /** `clear_full_row`: splits the settled cells into runs of one row,
        groups the runs by length, removes the row of every run as long as
        the board is wide, then removes the first such row once more and
        drops the cells above it by one row. */
    method ClearFullRow()
      modifies this`fixedBlock
      ensures fixedBlock == ClearFullRows(old(fixedBlock), width)
    {
      var rows: seq<seq<Cell>> := PartitionBy(RowOf, fixedBlock);
      var rowsLength: map<int, seq<seq<Cell>>> := GroupBy(RunLength, rows);
      if width in rowsLength {
        var full: seq<seq<Cell>> := rowsLength[width];
        FullBucket(fixedBlock, width);
        ghost var fixed0 := fixedBlock;
        var i := 0;
        while i < |full|
          invariant 0 <= i <= |full|
          invariant fixedBlock == RemoveEach(fixed0, full[..i])
        {
          var yVal := full[i][0].y;
          assert full[..i + 1][..i] == full[..i];
          fixedBlock := RowRemoved(fixedBlock, yVal);
          i := i + 1;
        }
        assert full[..i] == full;
        var rowY := rowsLength[width][0][0].y;
        var remaining := RowRemoved(fixedBlock, rowY);
        fixedBlock := MoveAboveBlocksDown(remaining, rowY);
      }
    }

    /** The `next-state` handler: when the game is running, moves the piece
        in `direction` (the piece's own direction when there is none)
        unless the move is blocked, then clears full rows; when it is not
        running, nothing changes. */
    method Tick(direction: Option<Vector>, anchor: int)
      requires Valid()
      requires direction.Some? ==> direction.value in Moves
      requires 0 <= anchor < width
      modifies this`fixedBlock, block`body
      ensures Valid()
      ensures block == old(block) && block.direction == old(block.direction)
      ensures old(isGameRunning) ==>
        State() == Step(old(State()), if direction.Some? then direction.value else old(block.direction), anchor, width, height)
      ensures !old(isGameRunning) ==> State() == old(State())
      ensures old(isGameRunning) &&
        Collision(old(block.body)[0], old(fixedBlock), if direction.Some? then direction.value else old(block.direction), width, height) != Landed
        ==> fixedBlock == old(fixedBlock)
    {
      if isGameRunning {
        var d := if direction.Some? then direction.value else block.direction;
        ghost var s0 := State();
        StepPreservesWellFormed(s0, d, anchor, width, height);
        if Collision(s0.body[0], s0.fixed, d, width, height) != Landed {
          NoLandingKeepsSettled(s0, d, anchor, width, height);
        }
        var blocked := Collisions(d, anchor);
        if !blocked {
          block.Move(d);
        }
        ghost var s1 := State();
        assert s1 == Moved(s0, d, anchor, width, height);
        ClearFullRow();
        assert State() == Snapshot(s1.body, ClearFullRows(s1.fixed, width));
      }
    }

    /** The keydown listener: the arrow keys run a tick in their direction;
        every other key does nothing. */
    method KeyDown(keyCode: int, anchor: int)
      requires Valid()
      requires 0 <= anchor < width
      modifies this`fixedBlock, block`body
      ensures Valid()
      ensures KeyCodeToMove(keyCode).None? || !old(isGameRunning) ==> State() == old(State())
      ensures KeyCodeToMove(keyCode).Some? && old(isGameRunning) ==>
        State() == Step(old(State()), KeyCodeToMove(keyCode).value, anchor, width, height)
    {
      var move := KeyCodeToMove(keyCode);
      if move.Some? {
        KeyCodeToMoveTable(keyCode);
        Tick(move, anchor);
      }
    }
  }
}
