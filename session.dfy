/**
 * The game session: the mutable state of one game (board, falling player,
 * upcoming piece, score, level, cleared rows, paused and game-over flags)
 * and the transitions that change it. Each React effect or callback is one
 * atomic method; random piece draws are parameters.
 */
module Session {
  import opened Tetrominos
  import opened Playfield
  import opened Landing
  import opened Motion
  import opened Progression

  /** The logical keyboard actions; any other key is `KeyOther`. */
  datatype Action = KeyLeft | KeyRight | KeyDown | KeyRotate | KeyHardDrop | KeyPause | KeyRestart | KeyOther

  /** A value copy of the whole session state. */
  datatype State = State(board: Board, player: Player, next: Option<Kind>,
                         score: nat, level: nat, rows: nat, paused: bool, gameOver: bool)

  /** The state of a new game whose first piece is `draw` and whose upcoming piece is `upcoming`. */
  function InitialState(draw: Kind, upcoming: Kind): State
  {
    State(CreateBoard(), SpawnPlayer(draw), Some(upcoming), 0, 1, 0, false, false)
  }

  /**
   * The spawn on a state: the pending piece, or the draw when none is
   * pending, enters as a fresh player and `upcoming` becomes pending.
   */
  function Spawned(s: State, draw: Kind, upcoming: Kind): State
  {
    s.(player := SpawnPlayer(if s.next.Some? then s.next.value else draw), next := Some(upcoming))
  }

  /**
   * The state the restart handler sets up before its spawn: an all-clear
   * board, zeroed counters, both flags clear and no pending piece. The
   * player `p` stays until the spawn replaces it.
   */
  function Restarted(p: Player): State
  {
    State(CreateBoard(), p, None, 0, 1, 0, false, false)
  }

  /**
   * From a settled state (fewer than ten cleared rows per level, as the
   * level effect leaves it), the level cascade after one landing lifts the
   * level by at most one step.
   */
  lemma AtMostOneLevelPerLanding(s: State, draw: Kind, upcoming: Kind)
    requires Good(s) && s.rows < s.level * 10 && s.player.collided
    ensures var a := AfterLanding(s, draw, upcoming);
      s.level <= SettleLevel(a.level, a.rows) <= s.level + 1
  {
    LandingKeepsState(s, draw, upcoming);
  }

  /** Restarting and then spawning gives the state of a new game, whatever player was left over. */
  lemma RestartIsNewGame(p: Player, draw: Kind, upcoming: Kind)
    ensures Spawned(Restarted(p), draw, upcoming) == InitialState(draw, upcoming)
  {
  }

  /**
   * The board and counter part of a landing: the board becomes the swept
   * merged board, the score rises by the points for the k completed rows
   * times the level, and the row counter rises by k.
   */
  ghost function Settled(s: State): State
    requires WellFormed(s.board)
  {
    var merged := Merge(s.board, s.player);
    var k := FullCount(merged);
    s.(board := Swept(merged), score := s.score + LineScore(k, s.level), rows := s.rows + k)
  }

  /** The landing effect on a state: settle and spawn once the player has landed, otherwise nothing. */
  ghost function AfterLanding(s: State, draw: Kind, upcoming: Kind): State
    requires WellFormed(s.board)
  {
    if s.player.collided then Spawned(Settled(s), draw, upcoming) else s
  }

  /** The session invariant on a state value. */
  ghost predicate Good(s: State)
  {
    WellFormed(s.board) && Consistent(s.board) && NoFullRows(s.board) &&
    Playable(s.player.tetromino) && s.level >= 1
  }

  /**
   * Landing keeps the session invariant, and it never completes more than
   * four rows, so the points table's fallback to 0 is never used.
   */
  lemma LandingKeepsState(s: State, draw: Kind, upcoming: Kind)
    requires Good(s)
    ensures Good(AfterLanding(s, draw, upcoming))
    ensures s.player.collided ==> FullCount(Merge(s.board, s.player)) <= 4
  {
    LandingKeepsBoard(s.board, s.player);
  }

  class Game {
    var board: Board
    var player: Player
    var next: Option<Kind>
    var score: nat
    var level: nat
    var rows: nat
    var paused: bool
    var gameOver: bool

    ghost function Snapshot(): State
      reads this
    {
      State(board, player, next, score, level, rows, paused, gameOver)
    }

    /**
     * The session invariant: a 20 by 10 board whose cells satisfy the cell
     * invariant and with no complete row left, a playable falling piece,
     * and a level of at least 1.
     */
    ghost predicate Valid()
      reads this
    {
      Good(Snapshot())
    }

    /**
     * A new game as the component sets it up on mount: an empty board,
     * zeroed counters, and, since no piece is pending yet, the first spawn
     * with two draws.
     */
    constructor (draw: Kind, upcoming: Kind)
      ensures Valid() && Snapshot() == InitialState(draw, upcoming)
    {
      board := CreateBoard();
      player := Player(Origin, [[Zero]], false);
      next := None;
      score, level, rows := 0, 1, 0;
      paused, gameOver := false, false;
      new;
      ghost var placeholder := player;
      ResetPlayer(draw, upcoming);
      RestartIsNewGame(placeholder, draw, upcoming);
    }

    /**
     * Spawn: the pending piece (or the draw when none is pending) enters
     * centred in row 0, not landed, and `upcoming` becomes pending. No
     * collision check is made.
     */
    method ResetPlayer(draw: Kind, upcoming: Kind)
      modifies this
      ensures Snapshot() == Spawned(old(Snapshot()), draw, upcoming)
    {
      var kind := if next.Some? then next.value else draw;
      next := Some(upcoming);
      var shape := Tetromino(kind);
      var startX := (Width - |shape[0]|) / 2;
      player := Player(Position(startX, 0), shape, false);
    }

    /** Sideways move by `dir`: taken only when the shifted piece does not collide. */
    method Move(dir: int)
      requires Valid()
      modifies this
      ensures Valid()
      ensures Snapshot() == old(Snapshot()).(player := MovePlayer(old(board), old(player), dir))
    {
      var hit := CheckCollision(player, board, Position(dir, 0));
      if !hit {
        player := player.(pos := Position(player.pos.x + dir, player.pos.y));
      }
    }

    /**
     * Soft drop: one row down when free; when blocked in the spawn row the
     * game is over and the player is left as it is; otherwise it has landed.
     */
    method Drop()
      requires Valid()
      modifies this
      ensures Valid()
      ensures Snapshot() == old(Snapshot()).(player := DropPlayer(old(board), old(player)),
                                             gameOver := old(gameOver) || ToppedOut(old(board), old(player)))
    {
      var hit := CheckCollision(player, board, Down);
      if !hit {
        player := player.(pos := Position(player.pos.x, player.pos.y + 1), collided := false);
      } else {
        if player.pos.y < 1 {
          gameOver := true;
          return;
        }
        player := player.(collided := true);
      }
    }

    /** Hard drop: straight down by the drop distance, landed; it never ends the game. */
    method HardDrop()
      requires Valid()
      modifies this
      ensures Valid()
      ensures exists d: nat ::
                IsDropDistance(old(board), old(player), d) &&
                Snapshot() == old(Snapshot()).(player := Landed(old(player), d))
    {
      var dropY := DropDistance(board, player);
      player := player.(pos := Position(player.pos.x, player.pos.y + dropY), collided := true);
    }

    /** Clockwise rotation with the horizontal wall-kick search. */
    method Rotate()
      requires Valid()
      modifies this
      ensures Valid()
      ensures RotateOutcome(old(board), old(player), player)
      ensures Snapshot() == old(Snapshot()).(player := player)
    {
      var rotated := Rotated(player.tetromino);
      RotatedPlayable(player.tetromino);
      var newPlayer := player.(tetromino := rotated);
      var res := KickSearch(board, newPlayer);
      if res.Some? {
        player := res.value;
      }
    }

    /**
     * The landing effect: once the player has landed, settle the board and
     * the counters, then spawn the next piece; otherwise nothing.
     */
    method Lock(draw: Kind, upcoming: Kind)
      requires Valid()
      modifies this
      ensures Valid()
      ensures Snapshot() == AfterLanding(old(Snapshot()), draw, upcoming)
    {
      if !player.collided {
        return;
      }
      ghost var before := Snapshot();
      Settle();
      ResetPlayer(draw, upcoming);
      LandingKeepsState(before, draw, upcoming);
    }

    /**
     * The board and counter part of the landing effect: merge the landed
     * player into a copy of the board, sweep the complete rows, add the
     * points and the cleared rows to the counters and install the swept
     * board.
     */
    method Settle()
      requires Valid()
      modifies this
      ensures Snapshot() == Settled(old(Snapshot()))
    {
      var newBoard := MergePiece(board, player);
      var sweptBoard, clearedRows := SweepRows(newBoard);
      if clearedRows > 0 {
        score := score + LineScore(clearedRows, level);
        rows := rows + clearedRows;
      }
      board := sweptBoard;
    }

    /** One evaluation of the level effect. */
    method LevelEffect()
      requires Valid()
      modifies this
      ensures Valid()
      ensures Snapshot() == old(Snapshot()).(level := LevelStep(old(level), old(rows)))
      ensures old(rows) >= old(level) * 10 ==> level == old(level) + 1
      ensures old(rows) < old(level) * 10 ==> level == old(level)
    {
      if rows >= level * 10 {
        level := level + 1;
      }
    }

    /** A timer tick: one soft drop unless the game is paused or over. */
    method Tick()
      requires Valid()
      modifies this
      ensures Valid()
      ensures old(paused || gameOver) ==> Snapshot() == old(Snapshot())
      ensures !old(paused || gameOver) ==>
        Snapshot() == old(Snapshot()).(player := DropPlayer(old(board), old(player)),
                                       gameOver := ToppedOut(old(board), old(player)))
    {
      if !paused && !gameOver {
        Drop();
      }
    }

    /** Restart: a fresh board, zeroed counters, flags cleared, no pending piece, then a spawn. */
    method Restart(draw: Kind, upcoming: Kind)
      modifies this
      ensures Valid() && Snapshot() == InitialState(draw, upcoming)
    {
      board := CreateBoard();
      score := 0;
      level := 1;
      rows := 0;
      gameOver := false;
      paused := false;
      next := None;
      ghost var leftover := player;
      ResetPlayer(draw, upcoming);
      RestartIsNewGame(leftover, draw, upcoming);
    }

    /**
     * The keyboard handler: nothing when the game is over; pause toggles
     * and restart always act otherwise; the moves act only when not paused.
     */
    method HandleKey(a: Action, draw: Kind, upcoming: Kind)
      requires Valid()
      modifies this
      ensures Valid()
      ensures old(gameOver) ==> Snapshot() == old(Snapshot())
      ensures !old(gameOver) && a == KeyPause ==> Snapshot() == old(Snapshot()).(paused := !old(paused))
      ensures !old(gameOver) && a == KeyRestart ==> Snapshot() == InitialState(draw, upcoming)
      ensures !old(gameOver) && old(paused) && a != KeyPause && a != KeyRestart ==> Snapshot() == old(Snapshot())
      ensures !old(gameOver) && !old(paused) ==>
        match a
        case KeyLeft => Snapshot() == old(Snapshot()).(player := MovePlayer(old(board), old(player), -1))
        case KeyRight => Snapshot() == old(Snapshot()).(player := MovePlayer(old(board), old(player), 1))
        case KeyDown => Snapshot() == old(Snapshot()).(player := DropPlayer(old(board), old(player)),
                                                      gameOver := ToppedOut(old(board), old(player)))
        case KeyRotate => RotateOutcome(old(board), old(player), player) && Snapshot() == old(Snapshot()).(player := player)
        case KeyHardDrop => exists d: nat :: IsDropDistance(old(board), old(player), d) &&
                              Snapshot() == old(Snapshot()).(player := Landed(old(player), d))
        case KeyOther => Snapshot() == old(Snapshot())
        case _ => true
    {
      if gameOver {
        return;
      }
      if a == KeyPause {
        paused := !paused;
        return;
      }
      if a == KeyRestart {
        Restart(draw, upcoming);
        return;
      }
      if paused {
        return;
      }
      match a
      case KeyLeft => Move(-1);
      case KeyRight => Move(1);
      case KeyDown => Drop();
      case KeyRotate => Rotate();
      case KeyHardDrop => HardDrop();
      case _ =>
    }
  }
}
