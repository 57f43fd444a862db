/**
 * The game session: the `TiliToli` object with its board, move counter,
 * elapsed-seconds counter, timer registration and playing flag. Rendering,
 * the DOM and the browser's timer scheduling are outside the model; the
 * random source of the scramble is a sequence of draws passed in.
 */
module Game {
  import opened Geometry
  import opened Board
  import opened Shuffle

  /** `150 * boardSize`: how many scramble steps a new game makes. */
  function ShuffleMoves(n: int): int
  {
    150 * n
  }

  /** The minutes:seconds split of the elapsed time shown in the stats line. */
  function ClockParts(timer: int): (ms: (int, int))
    requires timer >= 0
    ensures ms.0 >= 0 && 0 <= ms.1 < 60
    ensures ms.0 * 60 + ms.1 == timer
  {
    (timer / 60, timer % 60)
  }

  class TiliToli {
    var boardSize: int
    var tiles: seq<int>
    var moves: int
    var timer: int
    /** Whether `timerInterval` holds an interval handle (is not null). */
    var timerRunning: bool
    var isPlaying: bool
    /** Every move applied to the board since it was last generated, scramble included. */
    ghost var history: seq<int>

    /**
     * The object invariant: the board is a permutation of 0 .. N²-1 and is
     * reachable from the solved board by the recorded legal moves.
     */
    ghost predicate Valid()
      reads this`boardSize, this`tiles, this`moves, this`timer, this`history
    {
      boardSize >= 2 && IsBoard(boardSize, tiles) && moves >= 0 && timer >= 0 &&
      ApplyMoves(boardSize, Solved(boardSize), history) == Some(tiles)
    }

    /** A new object starts a 4×4 game straight away. */
    constructor (draws: seq<real>)
      requires |draws| == ShuffleMoves(4) && ValidDraws(draws)
      ensures Valid() && boardSize == 4
      ensures moves == 0 && timer == 0 && isPlaying && timerRunning
      ensures IsBoard(4, Solved(4)) && tiles == ShuffleRun(4, Solved(4), -1, draws).board
    {
      boardSize := 4;
      tiles := [];
      moves := 0;
      timer := 0;
      timerRunning := false;
      isPlaying := false;
      history := [];
      new;
      StartNewGame(draws);
    }

    /** `startNewGame`: stop the timer, clear the stats, build the solved board, scramble it, start. */
    method StartNewGame(draws: seq<real>)
      requires boardSize >= 2 && |draws| == ShuffleMoves(boardSize) && ValidDraws(draws)
      modifies this`tiles, this`moves, this`timer, this`timerRunning, this`isPlaying, this`history
      ensures Valid() && boardSize == old(boardSize)
      ensures moves == 0 && timer == 0 && isPlaying && timerRunning
      ensures IsBoard(boardSize, Solved(boardSize))
      ensures var w := ShuffleRun(boardSize, Solved(boardSize), -1, draws);
        tiles == w.board && history == w.path && |history| == ShuffleMoves(boardSize)
    {
      StopTimer();
      ResetStats();
      GenerateBoard();
      ShuffleBoard(draws);
      var _ := StartTimer();
      isPlaying := true;
    }


    /** A size button: switch to an n×n board and start a new game. */
    method SelectSize(size: int, draws: seq<real>)
      requires size >= 2 && |draws| == ShuffleMoves(size) && ValidDraws(draws)
      modifies this
      ensures Valid() && boardSize == size
      ensures moves == 0 && timer == 0 && isPlaying && timerRunning
      ensures IsBoard(size, Solved(size)) && tiles == ShuffleRun(size, Solved(size), -1, draws).board
    {
      boardSize := size;
      StartNewGame(draws);
    }

    /** `resetStats`: both counters back to zero. */
    method ResetStats()
      modifies this`moves, this`timer
      ensures moves == 0 && timer == 0
    {
      moves := 0;
      timer := 0;
    }

    /** `stopTimer`: if a handle is held, clear that interval and drop the handle. */
    method StopTimer()
      modifies this`timerRunning
      ensures !timerRunning
    {
      if timerRunning {
        timerRunning := false;
      }
    }

    /**
     * `startTimer`: stop the interval whose handle is held, then register a
     * new one and keep its handle. `lost` counts the intervals whose handle the
     * new one overwrites: they would go on ticking with no way to clear them.
     * The stop first is what makes that count zero, so exactly one ticks.
     */
    method StartTimer() returns (lost: int)
      modifies this`timerRunning
      ensures timerRunning && lost == 0
    {
      StopTimer();
      lost := if timerRunning then 1 else 0;
      timerRunning := true;
    }

    /** One delivery of the registered interval: a second has elapsed. */
    method Tick()
      requires Valid() && timerRunning
      modifies this`timer
      ensures Valid() && timer == old(timer) + 1
    {
      timer := timer + 1;
    }

    /** `generateBoard`: push 1 .. N²-1, then the blank. */
    method GenerateBoard()
      requires boardSize >= 2
      modifies this`tiles, this`history
      ensures tiles == Solved(boardSize) && history == []
      ensures IsBoard(boardSize, tiles) && ApplyMoves(boardSize, Solved(boardSize), history) == Some(tiles)
    {
      var totalTiles := boardSize * boardSize;
      MulMono(1, boardSize, boardSize);
      tiles := [];
      var i := 1;
      while i < totalTiles
        invariant 1 <= i <= totalTiles
        invariant tiles == Iota(1, i)
      {
        tiles := tiles + [i];
        i := i + 1;
      }
      tiles := tiles + [0];
      history := [];
      SolvedShape(boardSize);
    }

    /**
     * `shuffleBoard`: 150·N scramble steps, each moving the blank to a
     * neighbour other than the cell it has just left when there is one.
     * The swaps are made on a local copy of the board that is stored back
     * when the loop ends; nothing reads the board in between.
     */
    method ShuffleBoard(draws: seq<real>)
      requires Valid() && |draws| == ShuffleMoves(boardSize) && ValidDraws(draws)
      modifies this`tiles, this`history
      ensures Valid()
      ensures var w := ShuffleRun(boardSize, old(tiles), -1, draws);
        tiles == w.board && history == old(history) + w.path
    {
      var n := boardSize;
      var shuffleMoves := 150 * n;
      var previousIndex := -1;
      var board := tiles;
      ghost var path := [];
      var i := 0;
      while i < shuffleMoves
        invariant 0 <= i <= shuffleMoves
        invariant tiles == old(tiles) && history == old(history)
        invariant ShuffleRun(n, tiles, -1, draws[..i]) == Walk(board, previousIndex, path)
      {
        RunExtend(n, tiles, -1, draws, i);
        BlankFound(n, board);
        var emptyIndex := IndexOf(board, 0);
        var moveIndex := ScrambleMove(n, emptyIndex, previousIndex, draws[i]);
        board := board[emptyIndex := board[moveIndex]][moveIndex := board[emptyIndex]];
        previousIndex := emptyIndex;
        path := path + [moveIndex];
        i := i + 1;
      }
      assert draws[..i] == draws;
      RunContinues(n, history, tiles, -1, draws);
      tiles := board;
      history := history + path;
    }

    /**
     * `handleTileClick`: while playing, a tile next to the blank slides into
     * it, the move is counted and the win is checked; any other click changes
     * nothing.
     */
    method HandleTileClick(index: int)
      requires Valid() && 0 <= index < |tiles|
      modifies this`tiles, this`moves, this`history, this`isPlaying, this`timerRunning
      ensures Valid()
      ensures !(old(isPlaying) && IsAdjacent(boardSize, index, Blank(old(tiles)))) ==>
        tiles == old(tiles) && moves == old(moves) && isPlaying == old(isPlaying) &&
        timerRunning == old(timerRunning) && history == old(history)
      ensures old(isPlaying) && IsAdjacent(boardSize, index, Blank(old(tiles))) ==>
        ApplyMove(boardSize, old(tiles), index) == Some(tiles) &&
        history == old(history) + [index] &&
        moves == old(moves) + 1 &&
        isPlaying == !IsWon(tiles) &&
        timerRunning == (old(timerRunning) && !IsWon(tiles))
    {
      if !isPlaying {
        return;
      }
      var emptyIndex := IndexOf(tiles, 0);
      if IsAdjacent(boardSize, index, emptyIndex) {
        SlideIntoBlank(index, emptyIndex);
        CheckWin();
      }
    }

    /**
     * The swap branch of `handleTileClick`: exchange the clicked tile with the
     * blank and count the move. The exchange is a legal move, so the board
     * stays reachable from the solved one.
     */
    method SlideIntoBlank(index: int, emptyIndex: int)
      requires Valid() && 0 <= index < |tiles|
      requires emptyIndex == Blank(tiles) && IsAdjacent(boardSize, index, emptyIndex)
      modifies this`tiles, this`moves, this`history
      ensures Valid()
      ensures ApplyMove(boardSize, old(tiles), index) == Some(tiles)
      ensures history == old(history) + [index] && moves == old(moves) + 1
    {
      BlankFound(boardSize, tiles);
      MovesSnoc(boardSize, Solved(boardSize), history, index);
      tiles := tiles[index := tiles[emptyIndex]][emptyIndex := tiles[index]];
      moves := moves + 1;
      history := history + [index];
    }

    /** `checkWin`: scan every cell but the last; if all hold their own tile, the game is won. */
    method CheckWin()
      requires Valid()
      modifies this`isPlaying, this`timerRunning
      ensures Valid()
      ensures isPlaying == (old(isPlaying) && !IsWon(tiles))
      ensures timerRunning == (old(timerRunning) && !IsWon(tiles))
    {
      MulMono(1, boardSize, boardSize);
      var i := 0;
      while i < |tiles| - 1
        invariant 0 <= i <= |tiles| - 1
        invariant forall k :: 0 <= k < i ==> tiles[k] == k + 1
      {
        if tiles[i] != i + 1 {
          return;
        }
        i := i + 1;
      }
      GameWon();
    }

    /** `gameWon`: stop playing and stop the clock. */
    method GameWon()
      modifies this`isPlaying, this`timerRunning
      ensures !isPlaying && !timerRunning
    {
      isPlaying := false;
      StopTimer();
    }
  }
}
