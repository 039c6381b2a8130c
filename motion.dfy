/**
 * How the falling piece moves: sideways moves, the soft drop, the hard
 * drop's descent and the rotation's horizontal wall-kick search. Each
 * outcome is stated on values; the session's methods commit it.
 */
module Motion {
  import opened Tetrominos
  import opened Playfield

  datatype Option<T> = None | Some(value: T)

  const Down := Position(0, 1)

  /**
   * The spawn column for a matrix `w` cells wide: centred, leaning left
   * when the free columns do not split evenly, and within the board
   * whenever the matrix fits.
   */
  function SpawnX(w: int): (x: int)
    ensures 2 * x <= Width - w <= 2 * x + 1
    ensures 0 <= w <= Width ==> 0 <= x && x + w <= Width
  {
    (Width - w) / 2
  }

  /** A fresh player for kind `k`: its catalog matrix in the spawn column of row 0, not landed. */
  function SpawnPlayer(k: Kind): (p: Player)
    ensures Playable(p.tetromino) && p.pos.y == 0 && !p.collided
  {
    var shape := Tetromino(k);
    Player(Position(SpawnX(|shape[0]|), 0), shape, false)
  }

  /** No spawn check is made; on an empty board every kind spawns on a free position. */
  lemma SpawnFreeOnEmptyBoard(k: Kind)
    ensures !Collides(CreateBoard(), SpawnPlayer(k), Origin)
  {
    var b, p := CreateBoard(), SpawnPlayer(k);
    var t := p.tetromino;
    forall r, c | 0 <= r < |t| && 0 <= c < |t[r]| && t[r][c] != Zero
      ensures !Blocked(b, c + p.pos.x + Origin.x, r + p.pos.y + Origin.y)
    {
      assert |t[r]| == |t[0]|;
    }
  }

  /** The player after a sideways move by `dir`: moved when the target is free, unchanged otherwise. */
  ghost function MovePlayer(b: Board, p: Player, dir: int): Player
    requires WellFormed(b)
  {
    if Collides(b, p, Position(dir, 0)) then p else Shifted(p, Position(dir, 0))
  }

  /** An accepted move only changes x, by `dir`, and lands on a free position. */
  lemma MoveCommitsFree(b: Board, p: Player, dir: int)
    requires WellFormed(b) && !Collides(b, p, Position(dir, 0))
    ensures MovePlayer(b, p, dir).pos == Position(p.pos.x + dir, p.pos.y)
    ensures !Collides(b, MovePlayer(b, p, dir), Origin)
  {
    CollidesShift(b, p, Position(dir, 0));
  }

  /** The soft drop is blocked while the piece is still in its spawn row: the game ends. */
  ghost predicate ToppedOut(b: Board, p: Player)
    requires WellFormed(b)
  {
    Collides(b, p, Down) && p.pos.y < 1
  }

  /**
   * The player after one soft drop: one row lower and not landed when the
   * row below is free; unchanged when topped out; otherwise marked landed.
   */
  ghost function DropPlayer(b: Board, p: Player): Player
    requires WellFormed(b)
  {
    if !Collides(b, p, Down) then Shifted(p, Down).(collided := false)
    else if p.pos.y < 1 then p
    else p.(collided := true)
  }

  /** A soft drop that moves the piece leaves it on a free position. */
  lemma DropCommitsFree(b: Board, p: Player)
    requires WellFormed(b) && !Collides(b, p, Down)
    ensures !Collides(b, DropPlayer(b, p), Origin)
  {
    CollidesSamePlace(b, p, Down, DropPlayer(b, p), Origin);
  }

  /**
   * `d` is the hard-drop distance: the piece collides when lowered by
   * d + 1 rows and by no smaller positive number of rows.
   */
  ghost predicate IsDropDistance(b: Board, p: Player, d: nat)
    requires WellFormed(b)
  {
    Collides(b, p, Position(0, d + 1)) && forall e :: 1 <= e <= d ==> !Collides(b, p, Position(0, e))
  }

  /** The player after a hard drop by `d` rows: lowered and landed. */
  function Landed(p: Player, d: nat): Player
  {
    p.(pos := Position(p.pos.x, p.pos.y + d), collided := true)
  }

  /**
   * The hard drop's descent: lowers a counter while the row below the
   * lowered piece is free. It ends because some occupied cell of the piece
   * would eventually pass the floor.
   */
  method DropDistance(b: Board, p: Player) returns (dropY: nat)
    requires WellFormed(b) && HasBlock(p.tetromino)
    ensures IsDropDistance(b, p, dropY)
  {
    ghost var r0, c0 :| 0 <= r0 < |p.tetromino| && 0 <= c0 < |p.tetromino[r0]| && p.tetromino[r0][c0] != Zero;
    dropY := 0;
    var hit := CheckCollision(p, b, Position(0, dropY + 1));
    while !hit
      invariant forall e :: 1 <= e <= dropY ==> !Collides(b, p, Position(0, e))
      invariant hit == Collides(b, p, Position(0, dropY + 1))
      decreases Height - p.pos.y - dropY
    {
      assert !Blocked(b, c0 + p.pos.x, r0 + p.pos.y + dropY + 1);
      dropY := dropY + 1;
      hit := CheckCollision(p, b, Position(0, dropY + 1));
    }
  }

  /**
   * Where a hard drop leaves the piece: one row lower always collides, and
   * when the piece moved at all, its resting place is free.
   */
  lemma HardDropRests(b: Board, p: Player, d: nat)
    requires WellFormed(b) && IsDropDistance(b, p, d)
    ensures Collides(b, Landed(p, d), Down)
    ensures d > 0 ==> !Collides(b, Landed(p, d), Origin)
  {
    CollidesSamePlace(b, p, Position(0, d + 1), Landed(p, d), Down);
    if d > 0 {
      CollidesSamePlace(b, p, Position(0, d), Landed(p, d), Origin);
    }
  }

  /** The player after `n` soft drops. */
  ghost function SoftDrops(b: Board, p: Player, n: nat): Player
    requires WellFormed(b)
  {
    if n == 0 then p else DropPlayer(b, SoftDrops(b, p, n - 1))
  }

  /** While the rows below are free, each soft drop lowers the piece by one. */
  lemma {:induction false} SoftDropsFall(b: Board, p: Player, k: nat)
    requires WellFormed(b)
    requires forall e :: 1 <= e <= k ==> !Collides(b, p, Position(0, e))
    ensures k > 0 ==> SoftDrops(b, p, k) == p.(pos := Position(p.pos.x, p.pos.y + k), collided := false)
  {
    if k > 1 {
      SoftDropsFall(b, p, k - 1);
      var q := SoftDrops(b, p, k - 1);
      CollidesSamePlace(b, p, Position(0, k), q, Down);
    }
  }

  /**
   * Holding the soft drop reaches the hard drop's outcome: after d + 1 soft
   * drops the piece rests d rows lower, landed; unless the piece is still
   * in its spawn row there, in which case the soft drop ends the game while
   * the hard drop does not.
   */
  lemma SoftDropsMatchHardDrop(b: Board, p: Player, d: nat)
    requires WellFormed(b) && IsDropDistance(b, p, d)
    ensures p.pos.y + d >= 1 ==> SoftDrops(b, p, d + 1) == Landed(p, d)
    ensures p.pos.y + d < 1 <==> ToppedOut(b, SoftDrops(b, p, d))
  {
    SoftDropsFall(b, p, d);
    var q := SoftDrops(b, p, d);
    CollidesSamePlace(b, p, Position(0, d + 1), q, Down);
    assert q.pos == Position(p.pos.x, p.pos.y + d);
  }

  /**
   * The net horizontal shift after k steps of the kick search: 0, +1, -1,
   * +2, -2, ... Each step mirrors the shift to the other side of the start
   * column, one column further out when it lands on the right.
   */
  function KickOffset(k: nat): int
  {
    if k == 0 then 0
    else
      var prev := KickOffset(k - 1);
      if prev <= 0 then 1 - prev else -prev
  }

  /** In closed form: step k is (k + 1) / 2 columns right when k is odd, k / 2 columns left when k is even. */
  lemma {:induction false} KickOffsetClosed(k: nat)
    ensures KickOffset(k) == if k % 2 == 1 then (k + 1) / 2 else -(k / 2)
  {
    if k > 0 {
      KickOffsetClosed(k - 1);
    }
  }

  /** The candidate tested at step k of the kick search. */
  function Kicked(p: Player, k: nat): Player
  {
    p.(pos := Position(p.pos.x + KickOffset(k), p.pos.y))
  }

  /** Step k is the first step of the kick search whose candidate is free. */
  ghost predicate FirstFreeKick(b: Board, p: Player, k: nat)
    requires WellFormed(b)
  {
    !Collides(b, Kicked(p, k), Origin) && forall j :: 0 <= j < k ==> Collides(b, Kicked(p, j), Origin)
  }

  function Abs(n: int): nat { if n < 0 then -n else n }

  /**
   * The wall-kick search of the rotation: while the candidate collides,
   * shift it by `offset` and flip the offset's sign while growing it by
   * one; give up once the offset's magnitude exceeds the width w of the
   * rotated matrix. Steps 0 to w - 1 are tested; the w-th shift is
   * applied but never tested.
   */
  method KickSearch(b: Board, np: Player) returns (res: Option<Player>)
    requires WellFormed(b) && IsRect(np.tetromino)
    ensures res.Some? <==> exists k :: 0 <= k < |np.tetromino[0]| && !Collides(b, Kicked(np, k), Origin)
    ensures res.Some? ==> exists k :: 0 <= k < |np.tetromino[0]| && FirstFreeKick(b, np, k) && res.value == Kicked(np, k)
  {
    var cand := np;
    var offset := 1;
    ghost var k: nat := 0;
    var hit := CheckCollision(cand, b, Origin);
    while hit
      invariant 0 <= k < |np.tetromino[0]|
      invariant cand == Kicked(np, k)
      invariant offset == KickOffset(k + 1) - KickOffset(k) && Abs(offset) == k + 1
      invariant forall j :: 0 <= j < k ==> Collides(b, Kicked(np, j), Origin)
      invariant hit == Collides(b, cand, Origin)
      decreases |np.tetromino[0]| - k
    {
      assert Collides(b, Kicked(np, k), Origin);
      cand := cand.(pos := cand.pos.(x := cand.pos.x + offset));
      offset := -(offset + (if offset > 0 then 1 else -1));
      k := k + 1;
      if Abs(offset) > |cand.tetromino[0]| {
        return None;
      }
      hit := CheckCollision(cand, b, Origin);
    }
    return Some(cand);
  }

  /**
   * The O piece dropped straight down on an empty board rests with its top
   * row on board row 18, filling the bottom two rows.
   */
  lemma OPieceFallsToFloor()
    ensures IsDropDistance(CreateBoard(), SpawnPlayer(O), 18)
    ensures Landed(SpawnPlayer(O), 18).pos == Position(4, 18)
  {
    var b, p := CreateBoard(), SpawnPlayer(O);
    var t := p.tetromino;
    assert t[1][0] != Zero && Blocked(b, 0 + p.pos.x, 1 + p.pos.y + 19);
    forall e | 1 <= e <= 18
      ensures !Collides(b, p, Position(0, e))
    {
      forall r, c | 0 <= r < |t| && 0 <= c < |t[r]| && t[r][c] != Zero
        ensures !Blocked(b, c + p.pos.x, r + p.pos.y + e)
      {
      }
    }
  }

  /** The first k candidates of the kick search lie within ceil(k / 2) columns of the start. */
  lemma KickOffsetBound(k: nat)
    ensures Abs(KickOffset(k)) == (k + 1) / 2
  {
    KickOffsetClosed(k);
  }

  /**
   * The outcome of a rotation: the rotated matrix at the first free
   * candidate of the kick search, or the player unchanged when none of the
   * w candidates is free.
   */
  ghost predicate RotateOutcome(b: Board, p: Player, p': Player)
    requires WellFormed(b) && IsRect(p.tetromino)
  {
    var np := p.(tetromino := Rotated(p.tetromino));
    var w := |np.tetromino[0]|;
    if exists k :: 0 <= k < w && !Collides(b, Kicked(np, k), Origin)
    then exists k :: 0 <= k < w && FirstFreeKick(b, np, k) && p' == Kicked(np, k)
    else p' == p
  }

  /**
   * A rotation either leaves the player as it was or commits the rotated
   * matrix on a free position in the same row, at most w / 2 columns away,
   * where w is the rotated matrix's width (the original's height).
   */
  lemma RotateCommitsFree(b: Board, p: Player, p': Player)
    requires WellFormed(b) && IsRect(p.tetromino) && RotateOutcome(b, p, p')
    ensures p' == p || (p'.tetromino == Rotated(p.tetromino) && p'.collided == p.collided &&
                        p'.pos.y == p.pos.y && Abs(p'.pos.x - p.pos.x) <= |p.tetromino| / 2 &&
                        !Collides(b, p', Origin))
  {
    var np := p.(tetromino := Rotated(p.tetromino));
    var w := |np.tetromino[0]|;
    if exists k :: 0 <= k < w && !Collides(b, Kicked(np, k), Origin) {
      var k :| 0 <= k < w && FirstFreeKick(b, np, k) && p' == Kicked(np, k);
      KickOffsetBound(k);
    }
  }
}
