/**
 * The playfield: a 10 by 20 grid of (value, state) cells, the falling
 * player, and the collision test between them.
 */
module Playfield {
  import opened Tetrominos

  const Width := 10
  const Height := 20

  datatype CellState = Clear | Merged

  /** A board cell: the piece letter (or 0) and whether it is settled. */
  datatype Cell = Cell(value: Value, state: CellState)

  type Row = seq<Cell>
  type Board = seq<Row>

  datatype Position = Position(x: int, y: int)

  /** The falling piece: the top-left anchor of its matrix, the matrix, and the landed flag. */
  datatype Player = Player(pos: Position, tetromino: Shape, collided: bool)

  const Origin := Position(0, 0)

  function EmptyCell(): Cell { Cell(Zero, Clear) }

  function EmptyRow(): Row { seq(Width, _ => EmptyCell()) }

  /** `k` fresh all-clear rows. */
  function Blank(k: nat): seq<Row> { seq(k, _ => EmptyRow()) }

  /** A fresh board: every cell is (0, clear). */
  function CreateBoard(): (b: Board)
    ensures WellFormed(b) && Consistent(b) && NoFullRows(b)
    ensures forall i, j :: 0 <= i < Height && 0 <= j < Width ==> b[i][j].state == Clear
  {
    var b := Blank(Height);
    assert forall i :: 0 <= i < Height ==> b[i][0].state == Clear;
    b
  }

  /** The board has the fixed dimensions. */
  predicate WellFormed(b: Board)
  {
    |b| == Height && forall i :: 0 <= i < |b| ==> |b[i]| == Width
  }

  /** The cell invariant: the value is 0 exactly when the state is clear. */
  predicate CellOk(c: Cell) { c.value == Zero <==> c.state == Clear }

  predicate Consistent(b: Board)
  {
    forall i, j :: 0 <= i < |b| && 0 <= j < |b[i]| ==> CellOk(b[i][j])
  }

  /** Every cell of the row is merged (a completed line). */
  predicate IsFull(row: Row)
  {
    forall j :: 0 <= j < |row| ==> row[j].state == Merged
  }

  predicate NoFullRows(b: Board)
  {
    forall i :: 0 <= i < |b| ==> !IsFull(b[i])
  }

  /**
   * Board coordinate (x, y) is unavailable to a piece cell: off the sides,
   * below the floor, or (only for rows y >= 0) a cell that is not clear.
   * Rows above the board are checked against the side and floor bounds only.
   */
  ghost predicate Blocked(b: Board, x: int, y: int)
    requires WellFormed(b)
  {
    x < 0 || x >= Width || y >= Height || (y >= 0 && b[y][x].state != Clear)
  }

  /** Some occupied cell of the piece, shifted by its position plus `move`, is blocked. */
  ghost predicate Collides(b: Board, p: Player, move: Position)
    requires WellFormed(b)
  {
    exists r, c :: 0 <= r < |p.tetromino| && 0 <= c < |p.tetromino[r]| && p.tetromino[r][c] != Zero &&
      Blocked(b, c + p.pos.x + move.x, r + p.pos.y + move.y)
  }

  /** The player moved by `move`. */
  function Shifted(p: Player, move: Position): Player
  {
    p.(pos := Position(p.pos.x + move.x, p.pos.y + move.y))
  }

  /**
   * The test depends only on where the piece's matrix ends up: two players
   * with the same matrix whose anchors plus offsets agree collide alike.
   */
  lemma CollidesSamePlace(b: Board, p: Player, m: Position, q: Player, n: Position)
    requires WellFormed(b) && q.tetromino == p.tetromino
    requires p.pos.x + m.x == q.pos.x + n.x && p.pos.y + m.y == q.pos.y + n.y
    ensures Collides(b, p, m) == Collides(b, q, n)
  {
    if Collides(b, p, m) {
      var r, c :| 0 <= r < |p.tetromino| && 0 <= c < |p.tetromino[r]| && p.tetromino[r][c] != Zero &&
        Blocked(b, c + p.pos.x + m.x, r + p.pos.y + m.y);
      assert Blocked(b, c + q.pos.x + n.x, r + q.pos.y + n.y);
    }
    if Collides(b, q, n) {
      var r, c :| 0 <= r < |q.tetromino| && 0 <= c < |q.tetromino[r]| && q.tetromino[r][c] != Zero &&
        Blocked(b, c + q.pos.x + n.x, r + q.pos.y + n.y);
      assert Blocked(b, c + p.pos.x + m.x, r + p.pos.y + m.y);
    }
  }

  /** Testing with an offset is testing the translated piece with no offset. */
  lemma CollidesShift(b: Board, p: Player, move: Position)
    requires WellFormed(b)
    ensures Collides(b, p, move) == Collides(b, Shifted(p, move), Origin)
  {
    CollidesSamePlace(b, p, move, Shifted(p, move), Origin);
  }

  /**
   * The collision test: scans the piece row by row, column by column, and
   * returns at the first occupied cell that is blocked.
   */
  method CheckCollision(p: Player, b: Board, move: Position) returns (hit: bool)
    requires WellFormed(b)
    ensures hit == Collides(b, p, move)
  {
    var t := p.tetromino;
    var y := 0;
    while y < |t|
      invariant 0 <= y <= |t|
      invariant forall r, c :: 0 <= r < y && 0 <= c < |t[r]| && t[r][c] != Zero ==>
        !Blocked(b, c + p.pos.x + move.x, r + p.pos.y + move.y)
    {
      var x := 0;
      while x < |t[y]|
        invariant 0 <= x <= |t[y]|
        invariant forall r, c :: 0 <= r < y && 0 <= c < |t[r]| && t[r][c] != Zero ==>
          !Blocked(b, c + p.pos.x + move.x, r + p.pos.y + move.y)
        invariant forall c :: 0 <= c < x && t[y][c] != Zero ==>
          !Blocked(b, c + p.pos.x + move.x, y + p.pos.y + move.y)
      {
        if t[y][x] != Zero {
          var newY := y + p.pos.y + move.y;
          var newX := x + p.pos.x + move.x;
          if newX < 0 || newX >= Width || newY >= Height {
            assert Blocked(b, newX, newY);
            return true;
          }
          if newY >= 0 {
            var cell := b[newY][newX];
            if cell.state != Clear {
              assert Blocked(b, newX, newY);
              return true;
            }
          }
        }
        x := x + 1;
      }
      y := y + 1;
    }
    return false;
  }
}
