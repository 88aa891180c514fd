/**
 * The sliding-puzzle game state and its moves, without the user interface.
 * `Puzzle` is the state as a value and `Move` the move rule on it; the class
 * `Game` holds the same state in fields and updates it in place, each
 * method proved against those functions.
 */
module SlidingPuzzle {
  import opened Wrappers
  import opened Grid
  import opened Layout
  import Leaderboard

  /** The whole game state: the grid size, the layout, the hole, the timer and the solved latch. */
  datatype Puzzle = Puzzle(
    rows: nat,
    cols: nat,
    tiles: seq<Slot>,
    emptyPos: Coord,
    startTime: Option<nat>,
    solved: bool)

  /** A move attempt: the target cell and the clock reading when it was made. */
  datatype Attempt = Attempt(target: Coord, time: nat)

  /**
   * The layout invariant: the tiles are a permutation of the identity layout
   * (so there is exactly one hole), the cached `emptyPos` is in the grid and
   * its slot is the hole, and a solved game has a started timer and a layout
   * that passes the solved check.
   */
  predicate Invariant(p: Puzzle) {
    && ValidSize(p.rows, p.cols)
    && |p.tiles| == p.rows * p.cols
    && multiset(p.tiles) == multiset(Identity(p.rows, p.cols))
    && InBounds(p.emptyPos, p.rows, p.cols)
    && 0 <= IndexOf(p.emptyPos, p.cols) < |p.tiles|
    && p.tiles[IndexOf(p.emptyPos, p.cols)] == Empty
    && (p.solved ==> p.startTime.Some? && Solved(p.tiles, p.cols))
  }

  /** The three rejection rules of `_try_move`, negated. */
  predicate Accepts(p: Puzzle, pos: Coord) {
    !p.solved && InBounds(pos, p.rows, p.cols) && Manhattan(p.emptyPos, pos) == 1
  }

  /**
   * `_try_move`: a rejected attempt changes nothing; an accepted one is a `Slide`.
   */
  function Move(p: Puzzle, pos: Coord, now: nat): (q: Puzzle)
    requires Invariant(p)
    ensures Invariant(q)
    ensures !Accepts(p, pos) ==> q == p
  {
    if !Accepts(p, pos) then p
    else
      SlideKeepsInvariant(p, pos, now);
      Slide(p, pos, now)
  }

  /**
   * An accepted move: start the timer if it is not running, slide the target
   * tile into the hole, move the hole to the target and latch `solved` if the
   * new layout is solved.
   */
  function Slide(p: Puzzle, pos: Coord, now: nat): (q: Puzzle)
    requires Invariant(p) && Accepts(p, pos)
    ensures var emptyIdx, tileIdx := IndexOf(p.emptyPos, p.cols), IndexOf(pos, p.cols);
      && q.rows == p.rows && q.cols == p.cols && |q.tiles| == |p.tiles|
      && 0 <= tileIdx < |p.tiles| && emptyIdx != tileIdx
      && q.tiles[emptyIdx] == p.tiles[tileIdx]
      && q.tiles[tileIdx] == Empty
      && (forall k :: 0 <= k < |q.tiles| && k != emptyIdx && k != tileIdx ==> q.tiles[k] == p.tiles[k])
    ensures q.emptyPos == pos
    ensures q.startTime == (if p.startTime.None? then Some(now) else p.startTime)
    ensures q.solved <==> Solved(q.tiles, q.cols)
  {
    var emptyIdx, tileIdx := IndexOf(p.emptyPos, p.cols), IndexOf(pos, p.cols);
    IndexRoundTrip(pos, p.rows, p.cols);
    IndexRoundTrip(p.emptyPos, p.rows, p.cols);
    var tiles := p.tiles[emptyIdx := p.tiles[tileIdx]][tileIdx := Empty];
    var startTime := if p.startTime.None? then Some(now) else p.startTime;
    Puzzle(p.rows, p.cols, tiles, pos, startTime, Solved(tiles, p.cols))
  }

  /** Swapping the hole with a tile keeps the multiset of slots. */
  lemma SwapKeepsTiles(t: seq<Slot>, emptyIdx: nat, tileIdx: nat)
    requires emptyIdx < |t| && tileIdx < |t| && emptyIdx != tileIdx && t[emptyIdx] == Empty
    ensures multiset(t[emptyIdx := t[tileIdx]][tileIdx := Empty]) == multiset(t)
  {
    var u := t[emptyIdx := t[tileIdx]];
    assert multiset(u) == multiset(t) - multiset{Empty} + multiset{t[tileIdx]};
    assert u[tileIdx] == t[tileIdx];
  }

  /** An accepted move keeps the layout invariant. */
  lemma SlideKeepsInvariant(p: Puzzle, pos: Coord, now: nat)
    requires Invariant(p) && Accepts(p, pos)
    ensures Invariant(Slide(p, pos, now))
  {
    var q := Slide(p, pos, now);
    SwapKeepsTiles(p.tiles, IndexOf(p.emptyPos, p.cols), IndexOf(pos, p.cols));
    assert q.tiles == p.tiles[IndexOf(p.emptyPos, p.cols) := p.tiles[IndexOf(pos, p.cols)]][IndexOf(pos, p.cols) := Empty];
  }

  /** The state after a sequence of move attempts. */
  function Play(p: Puzzle, attempts: seq<Attempt>): (q: Puzzle)
    requires Invariant(p)
    ensures Invariant(q)
    ensures q.rows == p.rows && q.cols == p.cols
    decreases |attempts|
  {
    if attempts == [] then p
    else Play(Move(p, attempts[0].target, attempts[0].time), attempts[1..])
  }

  /**
   * Under the layout invariant the solved check holds exactly when the layout
   * is the identity layout; in particular the hole is then at the top-right cell.
   */
  lemma SolvedIffIdentity(p: Puzzle)
    requires Invariant(p)
    ensures Solved(p.tiles, p.cols) <==> p.tiles == Identity(p.rows, p.cols)
    ensures Solved(p.tiles, p.cols) ==> p.emptyPos == Coord(0, p.cols - 1)
  {
    var id := Identity(p.rows, p.cols);
    if Solved(p.tiles, p.cols) {
      var k := p.cols - 1;
      IdentityOneHole(p.rows, p.cols);
      if p.tiles[k] != Empty {
        assert p.tiles[k] == Tile(CoordOf(k, p.cols));
        assert p.tiles[k] in multiset(id);
        IdentityLacksHoleTile(p.rows, p.cols, k);
        assert false;
      }
      ExactlyOneHole(p);
      IndexRoundTrip(p.emptyPos, p.rows, p.cols);
      assert p.tiles == id;
    } else {
      IdentitySolved(p.rows, p.cols);
    }
  }

  /** Under the layout invariant the hole at `emptyPos` is the only empty slot. */
  lemma ExactlyOneHole(p: Puzzle)
    requires Invariant(p)
    ensures forall idx :: 0 <= idx < |p.tiles| ==> (p.tiles[idx] == Empty <==> idx == IndexOf(p.emptyPos, p.cols))
  {
    IdentityOneHole(p.rows, p.cols);
    var h := IndexOf(p.emptyPos, p.cols);
    forall idx | 0 <= idx < |p.tiles| && p.tiles[idx] == Empty
      ensures idx == h
    {
      if idx < h {
        TwoOccurrences(p.tiles, idx, h, Empty);
      } else if idx > h {
        TwoOccurrences(p.tiles, h, idx, Empty);
      }
    }
  }

  /**
   * An accepted move that does not solve the puzzle can be undone: moving the
   * tile back into the old hole is itself accepted and restores the layout and
   * the hole.
   */
  lemma MoveUndo(p: Puzzle, pos: Coord, now: nat, later: nat)
    requires Invariant(p) && Accepts(p, pos)
    requires !Move(p, pos, now).solved
    ensures Accepts(Move(p, pos, now), p.emptyPos)
    ensures Move(Move(p, pos, now), p.emptyPos, later).tiles == p.tiles
    ensures Move(Move(p, pos, now), p.emptyPos, later).emptyPos == p.emptyPos
  {
    var q := Move(p, pos, now);
    var back := Move(q, p.emptyPos, later);
    assert back.tiles == p.tiles;
  }

  /** Once the game is solved, no attempt changes anything. */
  lemma {:induction false} SolvedIsFinal(p: Puzzle, attempts: seq<Attempt>)
    requires Invariant(p) && p.solved
    ensures Play(p, attempts) == p
    decreases |attempts|
  {
    if attempts != [] {
      SolvedIsFinal(Move(p, attempts[0].target, attempts[0].time), attempts[1..]);
    }
  }

  /** Once the timer has started, later attempts never change the start time. */
  lemma {:induction false} StartTimeKept(p: Puzzle, attempts: seq<Attempt>)
    requires Invariant(p) && p.startTime.Some?
    ensures Play(p, attempts).startTime == p.startTime
    decreases |attempts|
  {
    if attempts != [] {
      StartTimeKept(Move(p, attempts[0].target, attempts[0].time), attempts[1..]);
    }
  }

  /**
   * Before the first accepted move nothing changes: if the timer is still not
   * running after a sequence of attempts, every one of them was rejected and
   * the state is the one before them.
   */
  lemma {:induction false} TimerUnsetMeansUnchanged(p: Puzzle, attempts: seq<Attempt>)
    requires Invariant(p) && p.startTime.None?
    ensures Play(p, attempts).startTime.None? ==> Play(p, attempts) == p
    decreases |attempts|
  {
    if attempts != [] {
      var a := attempts[0];
      var q := Move(p, a.target, a.time);
      if Accepts(p, a.target) {
        StartTimeKept(q, attempts[1..]);
      } else {
        TimerUnsetMeansUnchanged(q, attempts[1..]);
      }
    }
  }

  /**
   * Once the timer runs, it holds the clock reading of the first accepted
   * attempt, and the attempts before that one changed nothing.
   */
  lemma {:induction false} TimerStartsOnFirstAcceptedMove(p: Puzzle, attempts: seq<Attempt>)
    requires Invariant(p) && p.startTime.None?
    requires Play(p, attempts).startTime.Some?
    ensures exists k ::
      && 0 <= k < |attempts| && Play(p, attempts[..k]) == p && Accepts(p, attempts[k].target)
      && Play(p, attempts).startTime == Some(attempts[k].time)
    decreases |attempts|
  {
    var a, rest := attempts[0], attempts[1..];
    var q := Move(p, a.target, a.time);
    assert Play(p, attempts) == Play(q, rest);
    if Accepts(p, a.target) {
      assert Play(p, attempts).startTime == Some(a.time) by {
        StartTimeKept(q, rest);
      }
      assert Play(p, attempts[..0]) == p;
    } else {
      assert q == p;
      TimerStartsOnFirstAcceptedMove(p, rest);
      var k :| && 0 <= k < |rest| && Play(p, rest[..k]) == p && Accepts(p, rest[k].target)
        && Play(p, rest).startTime == Some(rest[k].time);
      assert Play(p, attempts[..k + 1]) == p by {
        WitnessShift(p, attempts, k);
      }
      assert attempts[k + 1] == rest[k];
    }
  }

  /** A rejected first attempt shifts every prefix by one: dropping it changes no prefix's state. */
  lemma WitnessShift(p: Puzzle, attempts: seq<Attempt>, k: nat)
    requires Invariant(p) && k < |attempts| - 1 && !Accepts(p, attempts[0].target)
    ensures Play(p, attempts[..k + 1]) == Play(p, attempts[1..][..k])
  {
    var pre := attempts[..k + 1];
    assert pre[0] == attempts[0];
    assert pre[1..] == attempts[1..][..k];
  }

  /** The latch: `solved` becomes true only through an accepted move that leaves a solved layout. */
  lemma {:induction false} SolvedOnlyWhenSolvedLayout(p: Puzzle, attempts: seq<Attempt>)
    requires Invariant(p) && !p.solved
    ensures Play(p, attempts).solved ==> Play(p, attempts).tiles == Identity(p.rows, p.cols)
    ensures !Play(p, attempts).solved ==> forall k :: 0 <= k <= |attempts| ==> !Play(p, attempts[..k]).solved
    decreases |attempts|
  {
    var q := Play(p, attempts);
    if q.solved {
      SolvedIffIdentity(q);
    }
    if attempts != [] && !q.solved {
      var m := Move(p, attempts[0].target, attempts[0].time);
      if m.solved {
        SolvedIsFinal(m, attempts[1..]);
        assert false;
      }
      SolvedOnlyWhenSolvedLayout(m, attempts[1..]);
      forall k | 0 <= k <= |attempts|
        ensures !Play(p, attempts[..k]).solved
      {
        if k > 0 {
          assert attempts[..k][1..] == attempts[1..][..k - 1];
        }
      }
    }
  }

  /**
   * `_on_key`'s direction table: the arrow names a direction for the tile,
   * so the target is the neighbour of the hole on the opposite side. Any
   * other key name targets nothing.
   */
  function KeyTarget(key: string, emptyPos: Coord): (t: Option<Coord>)
    ensures t.Some? <==> key in {"Up", "Down", "Left", "Right"}
    ensures t.Some? ==> Manhattan(emptyPos, t.value) == 1
    ensures key == "Up" ==> t == Some(Coord(emptyPos.r + 1, emptyPos.c))
    ensures key == "Down" ==> t == Some(Coord(emptyPos.r - 1, emptyPos.c))
    ensures key == "Left" ==> t == Some(Coord(emptyPos.r, emptyPos.c + 1))
    ensures key == "Right" ==> t == Some(Coord(emptyPos.r, emptyPos.c - 1))
  {
    var er, ec := emptyPos.r, emptyPos.c;
    if key == "Up" then Some(Coord(er + 1, ec))
    else if key == "Down" then Some(Coord(er - 1, ec))
    else if key == "Left" then Some(Coord(er, ec + 1))
    else if key == "Right" then Some(Coord(er, ec - 1))
    else None
  }

  /** The game object: the fields `_try_move`, `_shuffle_tiles` and `_on_key` update in place. */
  class Game {
    const rows: nat
    const cols: nat
    var tiles: seq<Slot>
    var emptyPos: Coord
    var startTime: Option<nat>
    var solved: bool

    /** The current state as a value. */
    function State(): Puzzle
      reads this
    {
      Puzzle(rows, cols, tiles, emptyPos, startTime, solved)
    }

    predicate Valid()
      reads this
    {
      Invariant(State())
    }

    /**
     * Builds the identity layout and shuffles it. `shuffled` is the random
     * permutation of the movable tiles that `random.shuffle` would produce.
     */
    constructor (rows: nat, cols: nat, shuffled: seq<Slot>)
      requires ValidSize(rows, cols)
      requires multiset(shuffled) == multiset(Movable(Identity(rows, cols)))
      ensures Valid()
      ensures this.rows == rows && this.cols == cols
      ensures SameHoles(tiles, Identity(rows, cols)) && Movable(tiles) == shuffled
      ensures emptyPos == Coord(0, cols - 1) && startTime.None? && !solved
    {
      this.rows := rows;
      this.cols := cols;
      startTime := None;
      solved := false;
      var t, e := CreateTiles(rows, cols);
      tiles := t;
      emptyPos := e;
      new;
      IdentityOneHole(rows, cols);
      Shuffle(shuffled);
      assert tiles[cols - 1] == Empty;
    }

    /**
     * `_shuffle_tiles`: writes `shuffled` into the non-empty slots in order,
     * leaving every hole where it is.
     */
    method Shuffle(shuffled: seq<Slot>)
      requires multiset(shuffled) == multiset(Movable(tiles))
      modifies this
      ensures SameHoles(old(tiles), tiles) && Movable(tiles) == shuffled
      ensures multiset(tiles) == multiset(old(tiles))
      ensures emptyPos == old(emptyPos) && startTime == old(startTime) && solved == old(solved)
    {
      ghost var orig := tiles;
      RefillStart(orig, shuffled);
      var i := 0;
      for idx := 0 to |tiles|
        invariant emptyPos == old(emptyPos) && startTime == old(startTime) && solved == old(solved)
        invariant Refilling(orig, tiles, shuffled, idx, i)
      {
        RefillStep(orig, tiles, shuffled, idx, i);
        if tiles[idx] != Empty {
          tiles := tiles[idx := shuffled[i]];
          i := i + 1;
        }
      }
      RefillDone(orig, tiles, shuffled, i);
      ShuffleKeepsTiles(orig, tiles);
    }

    /** `_is_solved`: scans the slots and stops at the first misplaced tile. */
    method IsSolved() returns (b: bool)
      requires cols > 0
      ensures b == Solved(tiles, cols)
    {
      for idx := 0 to |tiles|
        invariant forall k :: 0 <= k < idx ==> tiles[k] == Empty || tiles[k] == Tile(CoordOf(k, cols))
      {
        if tiles[idx] != Empty && tiles[idx] != Tile(CoordOf(idx, cols)) {
          return false;
        }
      }
      return true;
    }

    /**
     * `_try_move` together with the latch of `_on_solved`; `now` is the clock
     * reading. `solvedNow` reports that this move solved the puzzle.
     */
    method TryMove(pos: Coord, now: nat) returns (solvedNow: bool)
      requires Valid()
      modifies this
      ensures Valid()
      ensures State() == Move(old(State()), pos, now)
      ensures solvedNow <==> !old(solved) && solved
    {
      ghost var before := State();
      ghost var next := Move(before, pos, now);
      solvedNow := false;
      if solved {
        return;
      }
      var r, c := pos.r, pos.c;
      if !(0 <= r < rows && 0 <= c < cols) {
        return;
      }
      var er, ec := emptyPos.r, emptyPos.c;
      if Abs(er - r) + Abs(ec - c) != 1 {
        return;
      }
      assert Accepts(before, pos);
      assert next == Slide(before, pos, now);
      if startTime.None? {
        startTime := Some(now);
      }
      var emptyIdx := er * cols + ec;
      var tileIdx := r * cols + c;
      assert 0 <= emptyIdx < |tiles| && 0 <= tileIdx < |tiles| by {
        IndexRoundTrip(pos, rows, cols);
        IndexRoundTrip(emptyPos, rows, cols);
      }
      tiles := tiles[emptyIdx := tiles[tileIdx]][tileIdx := Empty];
      emptyPos := pos;
      assert tiles == next.tiles && emptyPos == next.emptyPos && startTime == next.startTime;
      var done := IsSolved();
      if done {
        solved := true;
        solvedNow := true;
      }
      assert State() == next;
    }

    /** `_on_key`: an arrow key attempts the move its direction table names; other keys do nothing. */
    method OnKey(key: string, now: nat) returns (solvedNow: bool)
      requires Valid()
      modifies this
      ensures Valid()
      ensures KeyTarget(key, old(emptyPos)).None? ==> State() == old(State()) && !solvedNow
      ensures KeyTarget(key, old(emptyPos)).Some? ==> State() == Move(old(State()), KeyTarget(key, old(emptyPos)).value, now)
      ensures solvedNow <==> !old(solved) && solved
    {
      var target := KeyTarget(key, emptyPos);
      solvedNow := false;
      if target.Some? {
        solvedNow := TryMove(target.value, now);
      }
    }

    /**
     * The recording half of `_on_solved`: the elapsed time is `now` minus the
     * start time, and the score is recorded only when the player entered
     * non-empty initials.
     */
    method RecordScore(board: Leaderboard.Board, now: nat, initials: string) returns (updated: Leaderboard.Board)
      requires solved && startTime.Some?
      ensures |initials| == 0 ==> updated == board
      ensures |initials| > 0 ==> updated == Leaderboard.Record(board, rows, cols, now - startTime.value, initials)
    {
      if |initials| > 0 {
        updated := Leaderboard.Record(board, rows, cols, now - startTime.value, initials);
      } else {
        updated := board;
      }
    }
  }
}
