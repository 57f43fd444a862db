/**
 * The board as a value: a row-major sequence of length N² holding a
 * permutation of 0..N²-1, where 0 is the blank and tile v belongs at index v-1.
 * Legal moves slide an orthogonal neighbour of the blank into it.
 */
module Board {
  import opened Geometry

  datatype Option<T> = None | Some(value: T)

  /** The integers lo, lo+1, ..., hi-1, in order (built by appending, as the push loop does). */
  function Iota(lo: int, hi: int): (r: seq<int>)
    decreases hi - lo
  {
    if hi <= lo then [] else Iota(lo, hi - 1) + [hi - 1]
  }

  lemma {:induction false} IotaAt(lo: int, hi: int, k: int)
    requires 0 <= k < hi - lo
    ensures |Iota(lo, hi)| == hi - lo && Iota(lo, hi)[k] == lo + k
    decreases hi - lo
  {
    if k < hi - 1 - lo {
      IotaAt(lo, hi - 1, k);
    } else if hi - 1 > lo {
      IotaAt(lo, hi - 1, 0);
    }
  }

  lemma {:induction false} IotaLength(lo: int, hi: int)
    requires lo <= hi
    ensures |Iota(lo, hi)| == hi - lo
    decreases hi - lo
  {
    if hi > lo {
      IotaLength(lo, hi - 1);
    }
  }

  /** Each integer of [lo, hi) occurs exactly once in Iota(lo, hi), and nothing else occurs. */
  lemma {:induction false} IotaCount(lo: int, hi: int, v: int)
    ensures multiset(Iota(lo, hi))[v] == if lo <= v < hi then 1 else 0
    decreases hi - lo
  {
    if hi > lo {
      IotaCount(lo, hi - 1, v);
    }
  }

  /** `generateBoard`: tiles 1 .. N²-1 followed by the blank. */
  function Solved(n: int): seq<int>
  {
    Iota(1, n * n) + [0]
  }

  /** A board of an n×n game: a permutation of 0 .. n²-1. */
  ghost predicate IsBoard(n: int, b: seq<int>)
  {
    n >= 1 && |b| == n * n && multiset(b) == multiset(Iota(0, n * n))
  }

  /** `checkWin`'s test: every cell but the last holds its own tile. */
  predicate IsWon(b: seq<int>)
  {
    forall i :: 0 <= i < |b| - 1 ==> b[i] == i + 1
  }

  /** The solved board has every tile at home and the blank last, and is a board. */
  lemma SolvedShape(n: int)
    requires n >= 1
    ensures |Solved(n)| == n * n
    ensures forall i :: 0 <= i < n * n - 1 ==> Solved(n)[i] == i + 1
    ensures Solved(n)[n * n - 1] == 0
    ensures IsBoard(n, Solved(n)) && IsWon(Solved(n))
  {
    var s := Solved(n);
    var nn := n * n;
    assert nn >= 1 by { MulMono(1, n, n); }
    IotaLength(1, nn);
    forall i | 0 <= i < nn - 1
      ensures s[i] == i + 1
    {
      IotaAt(1, nn, i);
    }
    forall v
      ensures multiset(s)[v] == multiset(Iota(0, nn))[v]
    {
      IotaCount(1, nn, v);
      IotaCount(0, nn, v);
    }
    assert multiset(s) == multiset(Iota(0, nn));
  }

  /** The solved 3×3 board. */
  lemma SolvedThree()
    ensures Solved(3) == [1, 2, 3, 4, 5, 6, 7, 8, 0]
  {
    SolvedShape(3);
  }

  /** `indexOf`: the first position holding x, or -1 when x does not occur. */
  function IndexOf(s: seq<int>, x: int): (r: int)
    ensures r == -1 <==> x !in s
    ensures r != -1 ==> 0 <= r < |s| && s[r] == x && x !in s[..r]
  {
    if s == [] then -1
    else if s[0] == x then 0
    else
      var k := IndexOf(s[1..], x);
      assert s[1..][..k + 1] == s[1..k + 2] by {
        if k != -1 { assert k + 2 <= |s|; }
      }
      if k == -1 then -1 else k + 1
  }

  /** The blank's position. */
  function Blank(b: seq<int>): int
  {
    IndexOf(b, 0)
  }

  /** A value that occurs at two different positions occurs at least twice. */
  lemma TwoOccurrences(s: seq<int>, i: int, j: int)
    requires 0 <= i < j < |s| && s[i] == s[j]
    ensures multiset(s)[s[i]] >= 2
  {
    assert s == s[..i] + [s[i]] + s[i + 1..j] + [s[j]] + s[j + 1..];
  }

  /** A board has a blank, so `indexOf(0)` finds it. */
  lemma BlankFound(n: int, b: seq<int>)
    requires IsBoard(n, b)
    ensures 0 <= Blank(b) < |b| && b[Blank(b)] == 0
  {
    IotaCount(0, n * n, 0);
    MulMono(1, n, n);
    assert 0 in multiset(b);
  }

  /** A board has exactly one blank, so the blank is found and is unique. */
  lemma BlankUnique(n: int, b: seq<int>)
    requires IsBoard(n, b)
    ensures 0 <= Blank(b) < |b| && b[Blank(b)] == 0
    ensures forall i :: 0 <= i < |b| && b[i] == 0 ==> i == Blank(b)
  {
    BlankFound(n, b);
    IotaCount(0, n * n, 0);
    forall i | 0 <= i < |b| && b[i] == 0
      ensures i == Blank(b)
    {
      var e := Blank(b);
      if i < e {
        TwoOccurrences(b, i, e);
      } else if e < i {
        TwoOccurrences(b, e, i);
      }
    }
  }

  /** Exchange the entries at i and j. */
  function Swap(b: seq<int>, i: int, j: int): (r: seq<int>)
    requires 0 <= i < |b| && 0 <= j < |b|
    ensures |r| == |b| && r[i] == b[j] && r[j] == b[i]
    ensures forall k :: 0 <= k < |b| && k != i && k != j ==> r[k] == b[k]
    ensures multiset(r) == multiset(b)
  {
    b[i := b[j]][j := b[i]]
  }

  /**
   * One legal move: the tile at index k slides into the blank, which must be
   * an orthogonal neighbour; anything else is refused.
   */
  function ApplyMove(n: int, b: seq<int>, k: int): (r: Option<seq<int>>)
    requires n >= 1
  {
    var e := Blank(b);
    if e != -1 && 0 <= k < |b| && IsAdjacent(n, k, e) then Some(Swap(b, k, e)) else None
  }

  /** Clicking the blank itself is refused: a cell is not its own neighbour. */
  lemma BlankClickRefused(n: int, b: seq<int>)
    requires n >= 1
    ensures ApplyMove(n, b, Blank(b)) == None
  {
    assert Distance(n, Blank(b), Blank(b)) == 0;
  }

  /** A sequence of moves, applied in order; None as soon as one is illegal. */
  function ApplyMoves(n: int, b: seq<int>, path: seq<int>): (r: Option<seq<int>>)
    requires n >= 1
  {
    if path == [] then Some(b)
    else match ApplyMoves(n, b, path[..|path| - 1])
      case None => None
      case Some(b') => ApplyMove(n, b', path[|path| - 1])
  }

  /**
   * A legal move keeps a board a board, changes exactly the moved cell and the
   * blank's cell, and leaves the blank where the tile was.
   */
  lemma MoveEffect(n: int, b: seq<int>, k: int)
    requires IsBoard(n, b) && ApplyMove(n, b, k).Some?
    ensures var b' := ApplyMove(n, b, k).value;
      IsBoard(n, b') && b'[k] == 0 && b'[Blank(b)] == b[k] && Blank(b') == k &&
      (forall i :: 0 <= i < |b| && i != k && i != Blank(b) ==> b'[i] == b[i])
  {
    var b' := ApplyMove(n, b, k).value;
    BlankUnique(n, b');
  }

  /** Every legal move can be undone by moving the tile back. */
  lemma MoveUndo(n: int, b: seq<int>, k: int)
    requires IsBoard(n, b) && ApplyMove(n, b, k).Some?
    ensures ApplyMove(n, ApplyMove(n, b, k).value, Blank(b)) == Some(b)
  {
    var e := Blank(b);
    var b' := ApplyMove(n, b, k).value;
    MoveEffect(n, b, k);
    BlankUnique(n, b);
    assert IsAdjacent(n, e, k);
    assert Swap(b', e, k) == b;
  }

  /** Boards reached by legal moves are boards. */
  lemma {:induction false} MovesKeepBoard(n: int, b: seq<int>, path: seq<int>)
    requires IsBoard(n, b) && ApplyMoves(n, b, path).Some?
    ensures IsBoard(n, ApplyMoves(n, b, path).value)
  {
    if path != [] {
      var p := path[..|path| - 1];
      MovesKeepBoard(n, b, p);
      MoveEffect(n, ApplyMoves(n, b, p).value, path[|path| - 1]);
    }
  }

  /** Appending a legal move to a legal path gives a legal path. */
  lemma MovesSnoc(n: int, b: seq<int>, path: seq<int>, k: int)
    requires n >= 1 && ApplyMoves(n, b, path).Some?
    ensures ApplyMoves(n, b, path + [k]) == ApplyMove(n, ApplyMoves(n, b, path).value, k)
  {
    assert (path + [k])[..|path|] == path;
  }

  /** Running p and then q is running p + q. */
  lemma {:induction false} MovesAppend(n: int, b: seq<int>, p: seq<int>, q: seq<int>)
    requires n >= 1 && ApplyMoves(n, b, p).Some?
    ensures ApplyMoves(n, b, p + q) == ApplyMoves(n, ApplyMoves(n, b, p).value, q)
  {
    if q != [] {
      var q' := q[..|q| - 1];
      assert (p + q)[..|p + q| - 1] == p + q';
      MovesAppend(n, b, p, q');
    } else {
      assert p + q == p;
    }
  }

  /**
   * Given the permutation invariant, `checkWin`'s test (the last cell is not
   * looked at) holds exactly on the solved board.
   */
  lemma WonIffSolved(n: int, b: seq<int>)
    requires IsBoard(n, b)
    ensures IsWon(b) <==> b == Solved(n)
  {
    SolvedShape(n);
    var nn := n * n;
    if IsWon(b) {
      BlankUnique(n, b);
      var e := Blank(b);
      assert e == nn - 1;
      assert b == Solved(n);
    }
  }
}
