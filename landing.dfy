/**
 * What happens when a piece lands: its occupied cells are written into a
 * copy of the board as merged cells, then every completed row is swept
 * away and replaced by a clear row on top.
 */
module Landing {
  import opened Tetrominos
  import opened Playfield

  /**
   * The cell at row i, column j after merging `p`: the piece's value, merged,
   * where an occupied piece cell lands on it, the old cell everywhere else.
   */
  ghost function MergedCell(b: Board, p: Player, i: int, j: int): Cell
    requires WellFormed(b) && 0 <= i < Height && 0 <= j < Width
  {
    var r, c := i - p.pos.y, j - p.pos.x;
    if 0 <= r < |p.tetromino| && 0 <= c < |p.tetromino[r]| && p.tetromino[r][c] != Zero
    then Cell(p.tetromino[r][c], Merged)
    else b[i][j]
  }

  /** The board after merging `p`; piece cells off the board are dropped. */
  ghost function Merge(b: Board, p: Player): (m: Board)
    requires WellFormed(b)
    ensures WellFormed(m)
  {
    seq(Height, i requires 0 <= i < Height =>
      seq(Width, j requires 0 <= j < Width => MergedCell(b, p, i, j)))
  }

  /**
   * Writes the piece into a copy of the board, cell by cell, skipping the
   * cells that fall outside [0, Height) x [0, Width).
   */
  method MergePiece(b: Board, p: Player) returns (nb: Board)
    requires WellFormed(b)
    ensures nb == Merge(b, p)
  {
    var t := p.tetromino;
    nb := b;
    for y := 0 to |t|
      invariant WellFormed(nb)
      invariant forall i, j :: 0 <= i < Height && 0 <= j < Width ==>
        nb[i][j] == (if i - p.pos.y < y then MergedCell(b, p, i, j) else b[i][j])
    {
      for x := 0 to |t[y]|
        invariant WellFormed(nb)
        invariant forall i, j :: 0 <= i < Height && 0 <= j < Width ==>
          nb[i][j] == (if i - p.pos.y < y || (i - p.pos.y == y && j - p.pos.x < x)
                       then MergedCell(b, p, i, j) else b[i][j])
      {
        var value := t[y][x];
        if value != Zero {
          var boardY := y + p.pos.y;
          var boardX := x + p.pos.x;
          if 0 <= boardY < Height && 0 <= boardX < Width {
            nb := nb[boardY := nb[boardY][boardX := Cell(value, Merged)]];
          }
        }
      }
    }
    var m := Merge(b, p);
    assert forall i :: 0 <= i < Height ==> nb[i] == m[i];
  }

  /** Merging writes only non-zero merged cells, so the cell invariant survives. */
  lemma MergeConsistent(b: Board, p: Player)
    requires WellFormed(b) && Consistent(b)
    ensures Consistent(Merge(b, p))
  {
    var m := Merge(b, p);
    forall i, j | 0 <= i < Height && 0 <= j < Width
      ensures CellOk(m[i][j])
    {
      assert m[i][j] == MergedCell(b, p, i, j);
    }
  }

  /** The number of completed rows. */
  function FullCount(rows: seq<Row>): nat
  {
    if rows == [] then 0
    else FullCount(rows[..|rows| - 1]) + (if IsFull(rows[|rows| - 1]) then 1 else 0)
  }

  /** The rows that are not complete, in their original order. */
  function Kept(rows: seq<Row>): seq<Row>
  {
    if rows == [] then []
    else Kept(rows[..|rows| - 1]) + (if IsFull(rows[|rows| - 1]) then [] else [rows[|rows| - 1]])
  }

  /** The swept board: one fresh row on top for every completed row, then the rest. */
  function Swept(rows: seq<Row>): seq<Row>
  {
    Blank(FullCount(rows)) + Kept(rows)
  }

  /**
   * The sweep: rows are visited top to bottom; a complete row is counted
   * and a clear row is put in front of the accumulator, any other row is
   * appended to it.
   */
  method SweepRows(b: Board) returns (swept: Board, cleared: nat)
    ensures cleared == FullCount(b)
    ensures swept == Blank(cleared) + Kept(b)
  {
    swept, cleared := [], 0;
    for i := 0 to |b|
      invariant cleared == FullCount(b[..i])
      invariant swept == Blank(cleared) + Kept(b[..i])
    {
      var row := b[i];
      assert b[..i + 1][..i] == b[..i];
      if forall j :: 0 <= j < |row| ==> row[j].state == Merged {
        cleared := cleared + 1;
        assert [EmptyRow()] + Blank(cleared - 1) == Blank(cleared);
        swept := [EmptyRow()] + swept;
      } else {
        swept := swept + [row];
      }
    }
    assert b[..|b|] == b;
  }

  /** Kept rows are never complete. */
  lemma {:induction false} KeptNotFull(rows: seq<Row>)
    ensures forall i :: 0 <= i < |Kept(rows)| ==> !IsFull(Kept(rows)[i])
  {
    if rows != [] {
      KeptNotFull(rows[..|rows| - 1]);
    }
  }

  /** Every kept row is a row of the input. */
  lemma {:induction false} KeptFrom(rows: seq<Row>)
    ensures forall i :: 0 <= i < |Kept(rows)| ==> Kept(rows)[i] in rows
  {
    if rows != [] {
      var init := rows[..|rows| - 1];
      KeptFrom(init);
      forall i | 0 <= i < |Kept(init)|
        ensures Kept(init)[i] in rows
      {
        var k :| 0 <= k < |init| && init[k] == Kept(init)[i];
        assert rows[k] == init[k];
      }
    }
  }

  /** Every row is either kept or counted. */
  lemma {:induction false} SweptLength(rows: seq<Row>)
    ensures |Kept(rows)| + FullCount(rows) == |rows|
  {
    if rows != [] {
      SweptLength(rows[..|rows| - 1]);
    }
  }

  /** The swept board keeps the board's dimensions. */
  lemma SweptWellFormed(b: Board)
    requires WellFormed(b)
    ensures WellFormed(Swept(b))
  {
    SweptLength(b);
    KeptFrom(b);
    var s := Swept(b);
    var k := FullCount(b);
    forall i | 0 <= i < |s|
      ensures |s[i]| == Width
    {
      if i >= k {
        assert s[i] == Kept(b)[i - k];
      }
    }
  }

  /** After the sweep no row is complete. */
  lemma SweptNoFullRows(b: Board)
    ensures NoFullRows(Swept(b))
  {
    KeptNotFull(b);
    var s := Swept(b);
    var k := FullCount(b);
    forall i | 0 <= i < |s|
      ensures !IsFull(s[i])
    {
      if i < k {
        assert s[i] == EmptyRow() && s[i][0].state == Clear;
      } else {
        assert s[i] == Kept(b)[i - k];
      }
    }
  }

  /** The sweep keeps the cell invariant: fresh rows hold (0, clear). */
  lemma SweptConsistent(b: Board)
    requires Consistent(b)
    ensures Consistent(Swept(b))
  {
    KeptFrom(b);
    var s := Swept(b);
    var k := FullCount(b);
    forall i, j | 0 <= i < |s| && 0 <= j < |s[i]|
      ensures CellOk(s[i][j])
    {
      if i >= k {
        assert s[i] == Kept(b)[i - k];
        var n :| 0 <= n < |b| && b[n] == s[i];
      }
    }
  }

  /** The number of merged cells in a row. */
  function MergedInRow(row: Row): nat
  {
    if row == [] then 0
    else MergedInRow(row[..|row| - 1]) + (if row[|row| - 1].state == Merged then 1 else 0)
  }

  /** The number of merged cells on the board. */
  function MergedCount(rows: seq<Row>): nat
  {
    if rows == [] then 0
    else MergedCount(rows[..|rows| - 1]) + MergedInRow(rows[|rows| - 1])
  }

  lemma {:induction false} MergedInFullRow(row: Row)
    requires IsFull(row)
    ensures MergedInRow(row) == |row|
  {
    if row != [] {
      MergedInFullRow(row[..|row| - 1]);
    }
  }

  lemma {:induction false} MergedInClearRow(row: Row)
    requires forall j :: 0 <= j < |row| ==> row[j].state == Clear
    ensures MergedInRow(row) == 0
  {
    if row != [] {
      MergedInClearRow(row[..|row| - 1]);
    }
  }

  lemma {:induction false} MergedCountAppend(a: seq<Row>, b: seq<Row>)
    ensures MergedCount(a + b) == MergedCount(a) + MergedCount(b)
  {
    if b != [] {
      assert (a + b)[..|a + b| - 1] == a + b[..|b| - 1];
      MergedCountAppend(a, b[..|b| - 1]);
    } else {
      assert a + b == a;
    }
  }

  lemma {:induction false} MergedCountBlank(k: nat)
    ensures MergedCount(Blank(k)) == 0
  {
    if k > 0 {
      assert Blank(k)[..k - 1] == Blank(k - 1);
      MergedCountBlank(k - 1);
      MergedInClearRow(EmptyRow());
    }
  }

  /** Removing the rows counted by the sweep takes their cells, and only those, off the board. */
  lemma {:induction false} MergedCountKept(rows: seq<Row>)
    requires forall i :: 0 <= i < |rows| ==> |rows[i]| == Width
    ensures MergedCount(Kept(rows)) + Width * FullCount(rows) == MergedCount(rows)
  {
    if rows != [] {
      var init, last := rows[..|rows| - 1], rows[|rows| - 1];
      MergedCountKept(init);
      assert MergedCount(rows) == MergedCount(init) + MergedInRow(last);
      if IsFull(last) {
        MergedInFullRow(last);
        assert |last| == Width;
        assert Kept(rows) == Kept(init) + [] == Kept(init);
        assert FullCount(rows) == FullCount(init) + 1;
      } else {
        MergedCountAppend(Kept(init), [last]);
        assert [last][..0] == [];
      }
    }
  }

  /** The sweep removes exactly Width merged cells for every row it clears. */
  lemma SweptMergedCount(b: Board)
    requires WellFormed(b)
    ensures MergedCount(Swept(b)) + Width * FullCount(b) == MergedCount(b)
  {
    MergedCountAppend(Blank(FullCount(b)), Kept(b));
    MergedCountBlank(FullCount(b));
    MergedCountKept(b);
  }

  /** The number of indices in [0, n) that also lie in [lo, lo + h). */
  function Overlap(n: int, lo: int, h: nat): nat
  {
    var top := if n < lo + h then n else lo + h;
    var bottom := if lo < 0 then 0 else lo;
    if top <= bottom then 0 else top - bottom
  }

  /** When every complete row lies in the band [lo, lo + h), at most h rows are complete. */
  lemma {:induction false} FullRowsInBand(rows: seq<Row>, lo: int, h: nat)
    requires forall i :: 0 <= i < |rows| && IsFull(rows[i]) ==> lo <= i < lo + h
    ensures FullCount(rows) <= Overlap(|rows|, lo, h) <= h
  {
    if rows != [] {
      var init := rows[..|rows| - 1];
      forall i | 0 <= i < |init| && IsFull(init[i])
        ensures lo <= i < lo + h
      {
        assert init[i] == rows[i];
      }
      FullRowsInBand(init, lo, h);
    }
  }

  /**
   * Merging a piece into a board with no complete row completes at most
   * as many rows as the piece matrix has rows: only rows the piece
   * touches can change.
   */
  lemma MergeCompletesAtMostPieceHeight(b: Board, p: Player)
    requires WellFormed(b) && NoFullRows(b)
    ensures FullCount(Merge(b, p)) <= |p.tetromino|
  {
    var m := Merge(b, p);
    forall i | 0 <= i < |m| && !(p.pos.y <= i < p.pos.y + |p.tetromino|)
      ensures m[i] == b[i]
    {
      assert forall j :: 0 <= j < Width ==> m[i][j] == MergedCell(b, p, i, j) == b[i][j];
    }
    FullRowsInBand(m, p.pos.y, |p.tetromino|);
  }

  /**
   * Landing keeps the board invariant: the swept merged board is 20 by 10,
   * satisfies the cell invariant and has no complete row, and the landing
   * completed at most as many rows as the piece matrix has rows.
   */
  lemma LandingKeepsBoard(b: Board, p: Player)
    requires WellFormed(b) && Consistent(b) && NoFullRows(b)
    ensures FullCount(Merge(b, p)) <= |p.tetromino|
    ensures WellFormed(Swept(Merge(b, p))) && Consistent(Swept(Merge(b, p))) && NoFullRows(Swept(Merge(b, p)))
  {
    var merged := Merge(b, p);
    MergeConsistent(b, p);
    MergeCompletesAtMostPieceHeight(b, p);
    SweptWellFormed(merged);
    SweptNoFullRows(merged);
    SweptConsistent(merged);
  }
}
