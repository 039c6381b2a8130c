/**
 * Piece catalog: the seven tetromino kinds, their shape matrices and the
 * clockwise rotation (transpose, then reverse every row).
 */
module Tetrominos {

  /** The seven playable piece kinds; the random draw picks one of "IJLOSTZ". */
  datatype Kind = I | J | L | O | S | T | Z

  /** A shape cell: the number 0 for empty, or the piece's letter. */
  datatype Value = Zero | Block(kind: Kind)

  /** A piece matrix, row-major, row 0 on top. */
  type Shape = seq<seq<Value>>

  /** A non-empty rectangular matrix: every row as long as the first. */
  predicate IsRect(m: Shape)
  {
    |m| > 0 && |m[0]| > 0 && forall r :: 0 <= r < |m| ==> |m[r]| == |m[0]|
  }

  /** Some cell of the matrix is occupied. */
  predicate HasBlock(m: Shape)
  {
    exists r, c :: 0 <= r < |m| && 0 <= c < |m[r]| && m[r][c] != Zero
  }

  /** The shapes a falling piece can have: rectangular, occupied, at most 4 by 4. */
  predicate Playable(m: Shape)
  {
    IsRect(m) && HasBlock(m) && |m| <= 4 && |m[0]| <= 4
  }

  /** Every occupied cell of the matrix carries the letter of kind `k`. */
  predicate OnlyKind(m: Shape, k: Kind)
  {
    forall r, c :: 0 <= r < |m| && 0 <= c < |m[r]| && m[r][c] != Zero ==> m[r][c] == Block(k)
  }

  /**
   * The catalog entry of each kind: its matrix, with the kind's letter in
   * every occupied cell and 0 elsewhere.
   */
  function Tetromino(k: Kind): (m: Shape)
    ensures Playable(m) && OnlyKind(m, k)
  {
    var o, x := Zero, Block(k);
    var m: Shape :=
      match k
      case I =>
        [[o, x, o, o],
         [o, x, o, o],
         [o, x, o, o],
         [o, x, o, o]]
      case J =>
        [[o, x, o],
         [o, x, o],
         [x, x, o]]
      case L =>
        [[o, x, o],
         [o, x, o],
         [o, x, x]]
      case O =>
        [[x, x],
         [x, x]]
      case S =>
        [[o, x, x],
         [x, x, o],
         [o, o, o]]
      case T =>
        [[o, o, o],
         [x, x, x],
         [o, x, o]]
      case Z =>
        [[x, x, o],
         [o, x, x],
         [o, o, o]];
    assert m[1][1] == x;
    m
  }

  /** Column `i` of the matrix, top to bottom (one row of the transpose). */
  function Column(m: Shape, i: nat): seq<Value>
    requires IsRect(m) && i < |m[0]|
  {
    seq(|m|, j requires 0 <= j < |m| => m[j][i])
  }

  function Reverse(s: seq<Value>): seq<Value>
  {
    seq(|s|, j requires 0 <= j < |s| => s[|s| - 1 - j])
  }

  /**
   * Clockwise rotation: the transpose with each row reversed. The result
   * has the dimensions swapped and takes entry (i, j) from the source's
   * entry (rows-1-j, i).
   */
  function Rotated(m: Shape): (r: Shape)
    requires IsRect(m)
    ensures IsRect(r) && |r| == |m[0]| && |r[0]| == |m|
    ensures forall i, j :: 0 <= i < |r| && 0 <= j < |m| ==> r[i][j] == m[|m| - 1 - j][i]
  {
    seq(|m[0]|, i requires 0 <= i < |m[0]| => Reverse(Column(m, i)))
  }

  /** Rotation keeps a piece playable: still rectangular, occupied and within 4 by 4. */
  lemma RotatedPlayable(m: Shape)
    requires Playable(m)
    ensures Playable(Rotated(m))
  {
    var rot := Rotated(m);
    var r, c :| 0 <= r < |m| && 0 <= c < |m[r]| && m[r][c] != Zero;
    assert rot[c][|m| - 1 - r] == m[r][c];
  }

  /** Rotation keeps the piece's letter. */
  lemma RotatedOnlyKind(m: Shape, k: Kind)
    requires IsRect(m) && OnlyKind(m, k)
    ensures OnlyKind(Rotated(m), k)
  {
    var rot := Rotated(m);
    forall i, j | 0 <= i < |rot| && 0 <= j < |rot[i]| && rot[i][j] != Zero
      ensures rot[i][j] == Block(k)
    {
      assert rot[i][j] == m[|m| - 1 - j][i];
    }
  }

  /** Four clockwise rotations give back the original matrix. */
  lemma RotateFourTimes(m: Shape)
    requires IsRect(m)
    ensures Rotated(Rotated(Rotated(Rotated(m)))) == m
  {
    var h, w := |m|, |m[0]|;
    var r1 := Rotated(m);
    var r2 := Rotated(r1);
    assert |r2| == h && |r2[0]| == w;
    forall i, j | 0 <= i < h && 0 <= j < w
      ensures r2[i][j] == m[h - 1 - i][w - 1 - j]
    {
      assert r2[i][j] == r1[w - 1 - j][i];
    }
    var r3 := Rotated(r2);
    var r4 := Rotated(r3);
    assert |r4| == h;
    forall i | 0 <= i < h
      ensures r4[i] == m[i]
    {
      forall j | 0 <= j < w
        ensures r4[i][j] == m[i][j]
      {
        assert r4[i][j] == r3[w - 1 - j][i];
        assert r3[w - 1 - j][i] == r2[h - 1 - i][w - 1 - j];
      }
    }
  }
}
