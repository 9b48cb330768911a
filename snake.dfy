/**
 * The grid snake game: a snake is a chain of grid positions, head first,
 * that moves one cell per tick in its current direction, may not leave the
 * grid and may not run into itself.
 *
 * Coordinates are single-precision floats in the game; they are only ever
 * halved, incremented and decremented, so below 2^23 cells per axis they are
 * exact, and they are modelled here as `real`s (odd grid sizes give
 * half-integer cells).
 */
module SnakeGame {

  /** A point of the board. Only `x` and `y` take part in the game. */
  datatype Position = Position(x: real, y: real, z: real)

  /** Position equality as the game defines it: `z` is ignored. */
  function SamePlace(p: Position, q: Position): (same: bool)
    ensures same <==> p.(z := q.z) == q
  {
    p.x == q.x && p.y == q.y
  }

  datatype Direction = Up | Down | Left | Right

  /** The heading that undoes `d`. */
  function Opposite(d: Direction): (r: Direction)
    ensures r != d
  {
    match d
    case Up => Down
    case Down => Up
    case Left => Right
    case Right => Left
  }

  /**
   * The guard of `setDirection`: a new heading is adopted unless it is the
   * direct reversal of the current one. The body is the four-way disjunction
   * of the game; the ensures clause is the rule it is meant to express.
   */
  function Accepts(current: Direction, requested: Direction): (ok: bool)
    ensures ok <==> requested != Opposite(current)
  {
    (current == Up && requested != Down) ||
    (current == Down && requested != Up) ||
    (current == Left && requested != Right) ||
    (current == Right && requested != Left)
  }

  /** `p` and `q` are neighbouring cells: one unit apart along exactly one axis. */
  predicate Adjacent(p: Position, q: Position)
  {
    (p.x == q.x && (q.y - p.y == 1.0 || p.y - q.y == 1.0)) ||
    (p.y == q.y && (q.x - p.x == 1.0 || p.x - q.x == 1.0))
  }

  /** The cell the head moves to: UP is y+1, DOWN y-1, LEFT x-1, RIGHT x+1. */
  function NextHead(head: Position, d: Direction): (r: Position)
    ensures Adjacent(head, r) && r.z == head.z
    ensures d == Up ==> r.y > head.y
    ensures d == Down ==> r.y < head.y
    ensures d == Left ==> r.x < head.x
    ensures d == Right ==> r.x > head.x
  {
    match d
    case Up => head.(y := head.y + 1.0)
    case Down => head.(y := head.y - 1.0)
    case Left => head.(x := head.x - 1.0)
    case Right => head.(x := head.x + 1.0)
  }

  /** A step followed by a step in the opposite direction returns to the start. */
  lemma StepBack(p: Position, d: Direction)
    ensures NextHead(NextHead(p, d), Opposite(d)) == p
  {
  }

  /** Different headings lead to different cells. */
  lemma NextHeadInjective(p: Position, d: Direction, e: Direction)
    ensures SamePlace(NextHead(p, d), NextHead(p, e)) <==> d == e
  {
  }

  /** The board test of `update`, in the game's own form (out of bounds is the negation). */
  function InBounds(p: Position, width: int, height: int): (inside: bool)
    ensures inside <==> 0.0 <= p.x < width as real && 0.0 <= p.y < height as real
  {
    !(p.x < 0.0 || p.x >= width as real || p.y < 0.0 || p.y >= height as real)
  }

  predicate AllInBounds(body: seq<Position>, width: int, height: int)
  {
    forall i :: 0 <= i < |body| ==> InBounds(body[i], width, height)
  }

  /**
   * The segment scan of `update`: the segments are compared with `p` front
   * to back, and the scan stops at the first one on the same cell.
   */
  function Occupied(body: seq<Position>, p: Position): (occupied: bool)
    ensures occupied <==> exists i :: 0 <= i < |body| && SamePlace(body[i], p)
  {
    |body| > 0 && (SamePlace(p, body[0]) || Occupied(body[1..], p))
  }

  /** No two segments share a cell. */
  predicate Distinct(body: seq<Position>)
  {
    forall i, j :: 0 <= i < j < |body| ==> !SamePlace(body[i], body[j])
  }

  /** Each segment is a neighbour of the one before it. */
  predicate Connected(body: seq<Position>)
  {
    forall i :: 0 <= i < |body| - 1 ==> Adjacent(body[i], body[i + 1])
  }

  /** The body the snake starts with on a `width` x `height` board. */
  function InitialBody(width: int, height: int): (body: seq<Position>)
    ensures |body| == 3
    ensures body[0].x == width as real / 2.0 && body[0].y == height as real / 2.0
    ensures forall i :: 0 <= i < 3 ==> body[i].y == body[0].y && body[i].x == body[0].x - i as real
  {
    var cx := width as real / 2.0;
    var cy := height as real / 2.0;
    [Position(cx, cy, 0.0), Position(cx - 1.0, cy, 0.0), Position(cx - 2.0, cy, 0.0)]
  }

  /** What one tick does to the body. */
  datatype Move = Moved(body: seq<Position>) | HitWall | HitSelf

  /**
   * One tick of `update` on the body: the head steps in direction `dir`; the
   * move ends the game if the new head leaves the board or lands on any
   * segment (the tail included); otherwise the new head is put in front and
   * the tail is dropped.
   */
  function Advance(body: seq<Position>, dir: Direction, width: int, height: int): (m: Move)
    requires |body| > 0
    ensures m == HitWall <==> !InBounds(NextHead(body[0], dir), width, height)
    ensures m.Moved? ==> |m.body| == |body| && Adjacent(body[0], m.body[0])
    ensures m.Moved? ==> forall i :: 0 <= i < |body| ==> !SamePlace(m.body[0], body[i])
  {
    var head := NextHead(body[0], dir);
    if !InBounds(head, width, height) then HitWall
    else if Occupied(body, head) then HitSelf
    else Moved([head] + body[..|body| - 1])
  }

  /** A move succeeds exactly when the new head is on the board and on no segment. */
  lemma AdvanceSucceedsIff(body: seq<Position>, dir: Direction, width: int, height: int)
    requires |body| > 0
    ensures var head := NextHead(body[0], dir);
      && (Advance(body, dir, width, height).Moved? <==>
            InBounds(head, width, height) && forall i :: 0 <= i < |body| ==> !SamePlace(head, body[i]))
      && (Advance(body, dir, width, height) == HitWall <==> !InBounds(head, width, height))
  {
  }

  /**
   * A successful move keeps the length, puts a neighbour of the old head in
   * front, shifts every old segment but the tail back by one place, and the
   * new head is on none of the old cells, the vacated tail cell included.
   */
  lemma AdvanceShifts(body: seq<Position>, dir: Direction, width: int, height: int)
    requires |body| > 0
    requires Advance(body, dir, width, height).Moved?
    ensures var b := Advance(body, dir, width, height).body;
      && |b| == |body|
      && b[0] == NextHead(body[0], dir)
      && Adjacent(body[0], b[0])
      && InBounds(b[0], width, height)
      && (forall i :: 1 <= i < |b| ==> b[i] == body[i - 1])
      && (forall i :: 0 <= i < |body| ==> !SamePlace(b[0], body[i]))
  {
  }

  /**
   * After a successful move in direction `dir`, the segment behind the new
   * head is the old head: one step from the new head in the opposite
   * direction.
   */
  lemma AdvanceLeavesNeckBehind(body: seq<Position>, dir: Direction, width: int, height: int)
    requires |body| >= 2
    requires Advance(body, dir, width, height).Moved?
    ensures var b := Advance(body, dir, width, height).body;
      |b| >= 2 && SamePlace(b[1], NextHead(b[0], Opposite(dir)))
  {
  }

  /** Distinct segments stay distinct. */
  lemma AdvancePreservesDistinct(body: seq<Position>, dir: Direction, width: int, height: int)
    requires |body| > 0 && Distinct(body)
    requires Advance(body, dir, width, height).Moved?
    ensures Distinct(Advance(body, dir, width, height).body)
  {
  }

  /** Segments on the board stay on the board. */
  lemma AdvancePreservesInBounds(body: seq<Position>, dir: Direction, width: int, height: int)
    requires |body| > 0 && AllInBounds(body, width, height)
    requires Advance(body, dir, width, height).Moved?
    ensures AllInBounds(Advance(body, dir, width, height).body, width, height)
  {
  }

  /** A chain of neighbouring cells stays a chain. */
  lemma AdvancePreservesConnected(body: seq<Position>, dir: Direction, width: int, height: int)
    requires |body| > 0 && Connected(body)
    requires Advance(body, dir, width, height).Moved?
    ensures Connected(Advance(body, dir, width, height).body)
  {
  }

  /** The starting body is a chain of three distinct cells, the second one behind the head. */
  lemma InitialBodyShape(width: int, height: int)
    ensures Distinct(InitialBody(width, height))
    ensures Connected(InitialBody(width, height))
    ensures InitialBody(width, height)[1] == NextHead(InitialBody(width, height)[0], Opposite(Right))
  {
  }

  /** The starting body fits the board exactly when the board is at least 4 wide and 1 high. */
  lemma {:induction false} InitialBodyInBounds(width: int, height: int)
    ensures AllInBounds(InitialBody(width, height), width, height) <==> width >= 4 && height >= 1
  {
    var b := InitialBody(width, height);
    if AllInBounds(b, width, height) {
      assert InBounds(b[0], width, height) && InBounds(b[2], width, height);
    }
    if width >= 4 && height >= 1 {
      forall i | 0 <= i < 3
        ensures InBounds(b[i], width, height)
      {
      }
    }
  }

  /**
   * In a chain of three cells the head can only run into the segment right
   * behind it: the tail is an even number of steps from the head, the new
   * head an odd number.
   */
  lemma ThreeSegmentsOnlyHitNeck(body: seq<Position>, dir: Direction, width: int, height: int)
    requires |body| == 3 && Connected(body) && Distinct(body)
    requires Advance(body, dir, width, height) == HitSelf
    ensures SamePlace(NextHead(body[0], dir), body[1])
  {
  }

  /**
   * If the segment behind the head lies opposite to `last` and the heading
   * passes the guard of `setDirection` against `last`, the new head does not
   * land on that segment.
   */
  lemma AcceptedTurnAvoidsNeck(body: seq<Position>, last: Direction, dir: Direction)
    requires |body| >= 2 && SamePlace(body[1], NextHead(body[0], Opposite(last)))
    requires Accepts(last, dir)
    ensures !SamePlace(NextHead(body[0], dir), body[1])
  {
  }

  /**
   * The guard compares with the current heading, not with the last move:
   * whatever the last heading `d`, some turn `e` is accepted after it and
   * the reversal of `d` is accepted after `e`, and a tick in the reversed
   * direction then drives the head into its own neck.
   */
  lemma {:induction false} DoubleTurnReverses(body: seq<Position>, d: Direction, width: int, height: int)
    requires |body| >= 2 && SamePlace(body[1], NextHead(body[0], Opposite(d)))
    requires InBounds(body[1], width, height)
    ensures exists e :: Accepts(d, e) && Accepts(e, Opposite(d))
    ensures Advance(body, Opposite(d), width, height) == HitSelf
  {
    var e := if d == Up || d == Down then Left else Up;
    assert Accepts(d, e) && Accepts(e, Opposite(d));
    assert SamePlace(body[1], NextHead(body[0], Opposite(d)));
  }

  /** The game state: the body (head first), the heading and the board size. */
  class Snake {
    var body: seq<Position>
    var currentDir: Direction
    var gridWidth: int
    var gridHeight: int

    /** `update` reads the head, so the body is never empty. */
    predicate Valid()
      reads this
    {
      |body| > 0
    }

    /** The segments are on distinct cells, all on the board. */
    predicate WellPlaced()
      reads this
    {
      Distinct(body) && AllInBounds(body, gridWidth, gridHeight)
    }

    /** A three-segment snake pointing right, its head in the middle of the board. */
    constructor (gridWidth: int, gridHeight: int)
      ensures Valid()
      ensures this.gridWidth == gridWidth && this.gridHeight == gridHeight
      ensures body == InitialBody(gridWidth, gridHeight)
      ensures currentDir == Right
    {
      this.gridWidth := gridWidth;
      this.gridHeight := gridHeight;
      var cx := gridWidth as real / 2.0;
      var cy := gridHeight as real / 2.0;
      body := [];
      body := body + [Position(cx, cy, 0.0)];
      body := body + [Position(cx - 1.0, cy, 0.0)];
      body := body + [Position(cx - 2.0, cy, 0.0)];
      currentDir := Right;
    }

    /** Adopts `dir` unless it is the direct reversal of the current heading. */
    method SetDirection(dir: Direction)
      modifies this`currentDir
      ensures currentDir == (if dir != Opposite(old(currentDir)) then dir else old(currentDir))
      ensures currentDir != Opposite(old(currentDir))
    {
      if Accepts(currentDir, dir) {
        currentDir := dir;
      }
    }

    /**
     * Advances the snake one cell. Returns false, leaving the body as it
     * was, when the new head is off the board or on a segment; otherwise
     * moves the body and returns true.
     */
    method Update() returns (ok: bool)
      requires Valid()
      modifies this`body
      ensures Valid()
      ensures var m := Advance(old(body), currentDir, gridWidth, gridHeight);
        ok == m.Moved? && body == (if ok then m.body else old(body))
      ensures currentDir == old(currentDir)
      ensures gridWidth == old(gridWidth) && gridHeight == old(gridHeight)
      ensures |body| == |old(body)|
      ensures old(WellPlaced()) ==> WellPlaced()
    {
      var newHead := NextHead(body[0], currentDir);
      if newHead.x < 0.0 || newHead.x >= gridWidth as real ||
         newHead.y < 0.0 || newHead.y >= gridHeight as real {
        return false;
      }
      var i := 0;
      while i < |body|
        invariant 0 <= i <= |body|
        invariant forall j :: 0 <= j < i ==> !SamePlace(body[j], newHead)
      {
        if SamePlace(newHead, body[i]) {
          return false;
        }
        i := i + 1;
      }
      ghost var before := body;
      body := [newHead] + body;
      body := body[..|body| - 1];
      assert body == [newHead] + before[..|before| - 1];
      if Distinct(before) {
        AdvancePreservesDistinct(before, currentDir, gridWidth, gridHeight);
      }
      if AllInBounds(before, gridWidth, gridHeight) {
        AdvancePreservesInBounds(before, currentDir, gridWidth, gridHeight);
      }
      ok := true;
    }
  }
}
