/**
 * The scramble: a walk of legal blank moves from the current board. At each
 * step the blank moves to a neighbour chosen by a random draw, avoiding the
 * cell it has just left unless no other neighbour exists. The random source
 * is a sequence of draws in [0, 1), one per step, supplied by the caller, so
 * every statement here holds for any draws.
 */
module Shuffle {
  import opened Geometry
  import opened Board

  /** Draws that `Math.random` could have produced. */
  predicate ValidDraws(rs: seq<real>)
  {
    forall i :: 0 <= i < |rs| ==> 0.0 <= rs[i] < 1.0
  }

  /** `Math.floor(Math.random() * len)`: a position in a non-empty list of length len. */
  function Pick(r: real, len: int): (k: int)
    requires 0.0 <= r < 1.0 && len >= 1
    ensures 0 <= k < len
  {
    var x := r * len as real;
    assert x < len as real;
    x.Floor
  }

  /** `filter(idx => idx !== x)`: s without its occurrences of x, order kept. */
  function Without(s: seq<int>, x: int): (r: seq<int>)
    ensures |r| <= |s|
  {
    if s == [] then []
    else (if s[0] == x then [] else [s[0]]) + Without(s[1..], x)
  }

  /** The filter keeps exactly the elements different from x. */
  lemma {:induction false} WithoutMembers(s: seq<int>, x: int)
    ensures forall y :: y in Without(s, x) <==> y in s && y != x
  {
    if s != [] {
      WithoutMembers(s[1..], x);
      assert s == [s[0]] + s[1..];
    }
  }

  /**
   * The cell the blank moves to in one scramble step: its neighbours in
   * `getAdjacentIndices` order, without the cell it has just left (all of
   * them if that leaves none), indexed by the draw.
   */
  function ScrambleMove(n: int, emptyIndex: int, previous: int, r: real): (m: int)
    requires n >= 2 && InBoard(n, emptyIndex) && 0.0 <= r < 1.0
    ensures InBoard(n, m)
  {
    var validMoves := AdjacentIndices(n, emptyIndex);
    var candidates := Without(validMoves, previous);
    var pool := if |candidates| > 0 then candidates else validMoves;
    WithoutMembers(validMoves, previous);
    AdjacentIndicesSound(n, emptyIndex);
    var m := pool[Pick(r, |pool|)];
    assert m in pool;
    m
  }

  /**
   * The chosen cell is one of the blank's neighbours, and it is not the cell
   * the blank has just left unless every neighbour is that cell.
   */
  lemma ScrambleMoveLegal(n: int, emptyIndex: int, previous: int, r: real)
    requires n >= 2 && InBoard(n, emptyIndex) && 0.0 <= r < 1.0
    ensures var m := ScrambleMove(n, emptyIndex, previous, r);
      m in AdjacentIndices(n, emptyIndex) && IsAdjacent(n, emptyIndex, m) &&
      (m != previous || forall k :: k in AdjacentIndices(n, emptyIndex) ==> k == previous)
  {
    var validMoves := AdjacentIndices(n, emptyIndex);
    WithoutMembers(validMoves, previous);
    AdjacentIndicesSound(n, emptyIndex);
  }

  /** The state after one scramble step, and the cell whose tile moved. */
  datatype Step = Step(board: seq<int>, previous: int, move: int)

  /**
   * One iteration of `shuffleBoard`'s loop: find the blank, choose the
   * neighbour with `ScrambleMove` and swap it with the blank.
   */
  function ShuffleStep(n: int, b: seq<int>, previous: int, r: real): (st: Step)
    requires n >= 2 && IsBoard(n, b) && 0.0 <= r < 1.0
    ensures IsBoard(n, st.board)
  {
    BlankFound(n, b);
    var emptyIndex := IndexOf(b, 0);
    var moveIndex := ScrambleMove(n, emptyIndex, previous, r);
    var b' := b[emptyIndex := b[moveIndex]][moveIndex := b[emptyIndex]];
    assert b' == Swap(b, moveIndex, emptyIndex);
    Step(b', emptyIndex, moveIndex)
  }

  /**
   * Each scramble step is a legal move of the blank to one of its neighbours;
   * it avoids the previous blank cell unless every neighbour is that cell,
   * and it remembers where the blank was.
   */
  lemma ShuffleStepLegal(n: int, b: seq<int>, previous: int, r: real)
    requires n >= 2 && IsBoard(n, b) && 0.0 <= r < 1.0
    ensures var st := ShuffleStep(n, b, previous, r);
      InBoard(n, Blank(b)) && st.previous == Blank(b) &&
      st.move in AdjacentIndices(n, Blank(b)) &&
      (st.move != previous || forall k :: k in AdjacentIndices(n, Blank(b)) ==> k == previous) &&
      ApplyMove(n, b, st.move) == Some(st.board)
  {
    BlankUnique(n, b);
    var e := Blank(b);
    ScrambleMoveLegal(n, e, previous, r);
    var st := ShuffleStep(n, b, previous, r);
    assert st.board == Swap(b, st.move, e);
  }

  /** Where a run of scramble steps has got to: board, previous blank cell, moves made. */
  datatype Walk = Walk(board: seq<int>, previous: int, path: seq<int>)

  /**
   * The scramble after |rs| steps from board b: one step per draw, each
   * recorded in the path. Whatever the draws, the board reached is a board.
   */
  function ShuffleRun(n: int, b: seq<int>, previous: int, rs: seq<real>): (w: Walk)
    requires n >= 2 && IsBoard(n, b) && ValidDraws(rs)
    ensures IsBoard(n, w.board) && |w.path| == |rs|
    decreases |rs|
  {
    if rs == [] then Walk(b, previous, [])
    else
      var w := ShuffleRun(n, b, previous, rs[..|rs| - 1]);
      var st := ShuffleStep(n, w.board, w.previous, rs[|rs| - 1]);
      Walk(st.board, st.previous, w.path + [st.move])
  }

  /** The recorded path is a sequence of legal moves that takes b to the scrambled board. */
  lemma {:induction false} ShuffleRunReaches(n: int, b: seq<int>, previous: int, rs: seq<real>)
    requires n >= 2 && IsBoard(n, b) && ValidDraws(rs)
    ensures var w := ShuffleRun(n, b, previous, rs);
      ApplyMoves(n, b, w.path) == Some(w.board)
    decreases |rs|
  {
    if rs != [] {
      var w := ShuffleRun(n, b, previous, rs[..|rs| - 1]);
      ShuffleRunReaches(n, b, previous, rs[..|rs| - 1]);
      var st := ShuffleStep(n, w.board, w.previous, rs[|rs| - 1]);
      ShuffleStepLegal(n, w.board, w.previous, rs[|rs| - 1]);
      MovesSnoc(n, b, w.path, st.move);
    }
  }

  /** A scramble continues whatever legal path led to its starting board. */
  lemma RunContinues(n: int, h: seq<int>, b: seq<int>, previous: int, rs: seq<real>)
    requires n >= 2 && IsBoard(n, b) && ValidDraws(rs)
    requires ApplyMoves(n, Solved(n), h) == Some(b)
    ensures var w := ShuffleRun(n, b, previous, rs);
      ApplyMoves(n, Solved(n), h + w.path) == Some(w.board)
  {
    var w := ShuffleRun(n, b, previous, rs);
    ShuffleRunReaches(n, b, previous, rs);
    MovesAppend(n, Solved(n), h, w.path);
  }

  /** Extending the draws by one runs one more step on the walk so far. */
  lemma RunExtend(n: int, b: seq<int>, previous: int, rs: seq<real>, i: int)
    requires n >= 2 && IsBoard(n, b) && ValidDraws(rs) && 0 <= i < |rs|
    ensures var w := ShuffleRun(n, b, previous, rs[..i]);
      var st := ShuffleStep(n, w.board, w.previous, rs[i]);
      ShuffleRun(n, b, previous, rs[..i + 1]) == Walk(st.board, st.previous, w.path + [st.move])
  {
    assert rs[..i + 1][..i] == rs[..i];
  }

  /**
   * The fallback to all neighbours is never taken on a board of side 2 or
   * more: every cell has two distinct neighbours, so one survives the filter
   * and the blank never steps straight back.
   */
  lemma NoImmediateBacktrack(n: int, b: seq<int>, previous: int, r: real)
    requires n >= 2 && IsBoard(n, b) && 0.0 <= r < 1.0
    ensures InBoard(n, Blank(b)) && |Without(AdjacentIndices(n, Blank(b)), previous)| > 0
    ensures ShuffleStep(n, b, previous, r).move != previous
  {
    BlankUnique(n, b);
    ShuffleStepLegal(n, b, previous, r);
    var s := AdjacentIndices(n, Blank(b));
    AdjacentIndicesDistinct(n, Blank(b));
    assert s[0] != s[1];
    WithoutMembers(s, previous);
    if s[0] != previous {
      assert s[0] in Without(s, previous);
    } else {
      assert s[1] in Without(s, previous);
    }
  }

  /** A board is reachable from the solved board by exactly `steps` legal moves. */
  ghost predicate ReachableIn(n: int, b: seq<int>, steps: int)
    requires n >= 1
  {
    exists path :: |path| == steps && ApplyMoves(n, Solved(n), path) == Some(b)
  }

  /** Solvability by construction: a scramble of the solved board is reachable from it. */
  lemma ScrambleReachable(n: int, rs: seq<real>)
    requires n >= 2 && ValidDraws(rs)
    ensures IsBoard(n, Solved(n)) && ReachableIn(n, ShuffleRun(n, Solved(n), -1, rs).board, |rs|)
  {
    SolvedShape(n);
    var w := ShuffleRun(n, Solved(n), -1, rs);
    ShuffleRunReaches(n, Solved(n), -1, rs);
    assert |w.path| == |rs| && ApplyMoves(n, Solved(n), w.path) == Some(w.board);
  }
}
