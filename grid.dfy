/** Geometry of the falling-block board (game_helpers in scripts.js):
    cells and direction vectors, spawning a piece at an anchor column,
    translating a piece, the arrow-key table and the collision test. */
module Grid {
  import opened Utils

  /** A board cell; x grows rightward, y grows downward. */
  datatype Cell = Cell(x: int, y: int)

  /** A direction of movement. */
  datatype Vector = Vector(dx: int, dy: int)

  /** The persistent direction of every piece: one row down. */
  const Gravity := Vector(0, 1)

  /** The directions a tick is ever asked to move in: gravity and the
      three arrow keys. */
  const Moves: set<Vector> := {Vector(0, 1), Vector(1, 0), Vector(-1, 0)}

  predicate OnBoard(c: Cell, w: int, h: int)
  {
    0 <= c.x < w && 0 <= c.y < h
  }

  /** The coordinate pair `[x, y]` the source stores for a cell. */
  function Pair(c: Cell): seq<int>
  {
    [c.x, c.y]
  }

  function Pairs(cells: seq<Cell>): (ps: seq<seq<int>>)
    ensures |ps| == |cells| && forall i :: 0 <= i < |cells| ==> ps[i] == Pair(cells[i])
  {
    seq(|cells|, i requires 0 <= i < |cells| => Pair(cells[i]))
  }

  /** Looking a cell up with `contains` over coordinate pairs is membership. */
  lemma ContainsCellIff(cells: seq<Cell>, c: Cell)
    ensures Contains(Pairs(cells), Pair(c)) <==> c in cells
  {
    var ps := Pairs(cells);
    if Pair(c) in ps {
      var i :| 0 <= i < |ps| && ps[i] == Pair(c);
      assert Pair(cells[i])[0] == c.x && Pair(cells[i])[1] == c.y;
      assert cells[i] == c;
    }
    if c in cells {
      var i :| 0 <= i < |cells| && cells[i] == c;
      assert ps[i] == Pair(c);
    }
  }

  // ---------------------------------------------------------------------
  // Pieces
  // ---------------------------------------------------------------------

  /** `block`: places a shape, given relative to (0, 0), at column `anchor`. */
  function Block(shape: seq<Cell>, anchor: int): (body: seq<Cell>)
    ensures |body| == |shape|
    ensures forall i :: 0 <= i < |shape| ==> body[i].x - anchor == shape[i].x && body[i].y == shape[i].y
  {
    seq(|shape|, i requires 0 <= i < |shape| => Cell(shape[i].x + anchor, shape[i].y))
  }

  /** `small_square`: the one-cell piece, the only shape the game spawns. */
  function SmallSquare(anchor: int): (body: seq<Cell>)
    ensures body == [Cell(anchor, 0)]
  {
    Block([Cell(0, 0)], anchor)
  }

  /** A spawned one-cell piece lies on the board, in the top row. */
  lemma SpawnOnBoard(anchor: int, w: int, h: int)
    requires 0 <= anchor < w && 0 < h
    ensures |SmallSquare(anchor)| == 1
    ensures OnBoard(SmallSquare(anchor)[0], w, h) && SmallSquare(anchor)[0].y == 0
  {
  }

  /** `move_block`'s new body: every cell moved by `d`. */
  function Translated(body: seq<Cell>, d: Vector): (moved: seq<Cell>)
    ensures |moved| == |body|
    ensures forall i :: 0 <= i < |body| ==> moved[i] == Cell(body[i].x + d.dx, body[i].y + d.dy)
  {
    if body == [] then []
    else [Cell(body[0].x + d.dx, body[0].y + d.dy)] + Translated(body[1..], d)
  }

  /** Spawning a shape at `anchor` is translating the shape by `anchor`
      columns. */
  lemma BlockIsTranslation(shape: seq<Cell>, anchor: int)
    ensures Block(shape, anchor) == Translated(shape, Vector(anchor, 0))
  {
  }

  /** Moving by `d` and then by the opposite vector gives the body back. */
  lemma TranslatedRoundTrip(body: seq<Cell>, d: Vector)
    ensures Translated(Translated(body, d), Vector(-d.dx, -d.dy)) == body
  {
  }

  // ---------------------------------------------------------------------
  // Keys
  // ---------------------------------------------------------------------

  /** `key_code_to_move`: the arrow keys down, right and left; every other
      key code has no entry. */
  function KeyCodeToMove(keyCode: int): (move: Option<Vector>)
    ensures move.Some? <==> keyCode in {37, 39, 40}
  {
    if keyCode == 40 then Some(Vector(0, 1))
    else if keyCode == 39 then Some(Vector(1, 0))
    else if keyCode == 37 then Some(Vector(-1, 0))
    else None
  }

  /** Down is gravity, right and left move one column; every direction the
      table yields is one a tick accepts. */
  lemma KeyCodeToMoveTable(keyCode: int)
    ensures KeyCodeToMove(40) == Some(Gravity)
    ensures KeyCodeToMove(39) == Some(Vector(1, 0)) && KeyCodeToMove(37) == Some(Vector(-1, 0))
    ensures KeyCodeToMove(keyCode).Some? ==> KeyCodeToMove(keyCode).value in Moves
  {
  }

  // ---------------------------------------------------------------------
  // Collisions
  // ---------------------------------------------------------------------

  /** What `collisions` decides for a move of the piece whose first cell is
      `head`: it runs into a side wall, it lands (floor or settled cell), or
      it is free. */
  datatype Outcome = Free | Wall | Landed

  /** The decision, looking at the first cell only: a future column equal to
      -1 or `w` is a wall, checked before a future row equal to `h` or a
      future cell that is already settled. */
  function Collision(head: Cell, fixed: seq<Cell>, d: Vector, w: int, h: int): Outcome
  {
    var fx := head.x + d.dx;
    var fy := head.y + d.dy;
    if fx in {w, -1} then Wall
    else if fy == h || Cell(fx, fy) in fixed then Landed
    else Free
  }

  /** The three outcomes, each characterised in terms of the future cell;
      the wall test wins over the floor and the settled cells. */
  lemma CollisionCases(head: Cell, fixed: seq<Cell>, d: Vector, w: int, h: int)
    ensures var future := Cell(head.x + d.dx, head.y + d.dy);
      && (Collision(head, fixed, d, w, h) == Wall <==> future.x == -1 || future.x == w)
      && (Collision(head, fixed, d, w, h) == Landed <==>
            future.x != -1 && future.x != w && (future.y == h || future in fixed))
      && (Collision(head, fixed, d, w, h) == Free <==>
            future.x != -1 && future.x != w && future.y != h && future !in fixed)
  {
  }

  /** From a cell on the board, a free move in one of the allowed directions
      stays on the board and does not enter a settled cell. */
  lemma FreeMoveStaysOnBoard(head: Cell, fixed: seq<Cell>, d: Vector, w: int, h: int)
    requires OnBoard(head, w, h) && d in Moves
    requires Collision(head, fixed, d, w, h) == Free
    ensures OnBoard(Translated([head], d)[0], w, h)
    ensures Translated([head], d)[0] !in fixed
  {
  }

  /** A wall outcome can only come from a sideways move, and a landing from
      the floor only from a downward one. */
  lemma WallOnlySideways(head: Cell, fixed: seq<Cell>, d: Vector, w: int, h: int)
    requires OnBoard(head, w, h) && d in Moves
    ensures Collision(head, fixed, d, w, h) == Wall ==> d.dy == 0 && d.dx != 0
    ensures head.y + d.dy == h ==> d == Gravity
  {
  }
}
