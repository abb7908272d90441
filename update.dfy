/**
 * Tick engine (src/game/update.ts): one movement step and the direction change,
 * both mutating a GameState in place. `Tick` and `Turn` are the value-level
 * specifications the two methods are proved against.
 *
 * The code checks only the board edges: it never consults the mask or the
 * snake's own segments when moving and never sets the status `Won`.
 */
module Update {
  import Mask
  import opened Options
  import opened State

  /** The direction a snake may not turn into. */
  function Opposite(direction: Direction): (r: Direction)
    ensures r != direction
    ensures (direction.Up? || direction.Down?) <==> (r.Up? || r.Down?)
  {
    match direction
    case Up => Down
    case Down => Up
    case Left => Right
    case Right => Left
  }

  /** Opposite pairs are symmetric. */
  lemma OppositeInvolutive(direction: Direction)
    ensures Opposite(Opposite(direction)) == direction
  {
  }

  /** A step and a step in the opposite direction cancel out. */
  lemma StepBack(pos: Position, direction: Direction)
    ensures GetNextPosition(GetNextPosition(pos, direction), Opposite(direction)) == pos
  {
  }

  /** The cell the head moves to on the next tick. */
  function NextHead(s: Snapshot): Position
    requires |s.snake.segments| >= 1
  {
    GetNextPosition(s.snake.segments[0], s.snake.direction)
  }

  /** One tick of updateGameState, on values. */
  function Tick(s: Snapshot): (r: Snapshot)
    requires Ready(s)
    ensures Ready(r)
    ensures r.level == s.level && r.lastTickTime == s.lastTickTime
    ensures r.snake.direction == s.snake.direction
    ensures |r.snake.segments| == |s.snake.segments|
    ensures s.status != Playing ==> r == s
    ensures r.status == s.status || r.status == Lost
  {
    if s.status != Playing then s
    else
      var next := NextHead(s);
      if !IsPositionInBounds(next, s.level) then s.(status := Lost)
      else
        var grown := [next] + s.snake.segments;
        var unvisited := !s.visited[next.y][next.x];
        s.(snake := s.snake.(segments := grown[..|grown| - 1]),
           visited := if unvisited then Mask.SetCell(s.visited, next.x, next.y) else s.visited,
           visitedCount := if unvisited then s.visitedCount + 1 else s.visitedCount)
  }

  /** changeDirection on values: only a playing snake turns, and never onto the opposite direction. */
  function Turn(s: Snapshot, newDirection: Direction): (r: Snapshot)
    ensures r == s.(snake := r.snake) && r.snake.segments == s.snake.segments
    ensures r.snake.direction == newDirection <==>
      newDirection == s.snake.direction ||
      (s.status == Playing && newDirection != Opposite(s.snake.direction))
    ensures r.snake.direction == s.snake.direction || r.snake.direction == newDirection
  {
    if s.status != Playing then s
    else if Opposite(s.snake.direction) == newDirection then s
    else s.(snake := s.snake.(direction := newDirection))
  }

  /** updateGameState: mutates the state by exactly one `Tick`. */
  method UpdateGameState(state: GameState)
    requires Ready(state.Value())
    modifies state
    ensures state.Value() == Tick(old(state.Value()))
    ensures old(state.Valid()) ==> state.Valid()
  {
    ghost var before := state.Value();
    if Consistent(before) {
      TickKeepsCount(before);
    }
    if state.status != Playing {
      return;
    }
    var head := state.snake.segments[0];
    var nextHead := GetNextPosition(head, state.snake.direction);
    if !IsPositionInBounds(nextHead, state.level) {
      state.status := Lost;
      return;
    }
    state.snake := state.snake.(segments := [nextHead] + state.snake.segments);
    if !state.visited[nextHead.y][nextHead.x] {
      state.visited := Mask.SetCell(state.visited, nextHead.x, nextHead.y);
      state.visitedCount := state.visitedCount + 1;
    }
    if |state.snake.segments| > 1 {
      state.snake := state.snake.(segments := state.snake.segments[..|state.snake.segments| - 1]);
    }
  }

  /** changeDirection: mutates the state by exactly one `Turn`. */
  method ChangeDirection(state: GameState, newDirection: Direction)
    modifies state
    ensures state.Value() == Turn(old(state.Value()), newDirection)
    ensures old(state.Valid()) ==> state.Valid()
  {
    if state.status != Playing {
      return;
    }
    var currentDirection := state.snake.direction;
    if Opposite(currentDirection) == newDirection {
      return;
    }
    state.snake := state.snake.(direction := newDirection);
  }

  /** A tick that would leave the board loses and changes nothing else. */
  lemma TickOffBoard(s: Snapshot)
    requires Ready(s) && s.status == Playing && !IsPositionInBounds(NextHead(s), s.level)
    ensures Tick(s) == s.(status := Lost)
  {
  }

  /**
   * An in-bounds move: the new head in front, the tail dropped, the head's cell
   * marked, the count raised by one exactly when that cell was new, no other
   * cell touched, and the game still playing.
   */
  lemma TickMoves(s: Snapshot)
    requires Ready(s) && s.status == Playing && IsPositionInBounds(NextHead(s), s.level)
    ensures var r, next, n := Tick(s), NextHead(s), |s.snake.segments|;
      r.status == Playing &&
      r.snake.segments[0] == next &&
      (forall i :: 1 <= i < n ==> r.snake.segments[i] == s.snake.segments[i - 1]) &&
      r.visited[next.y][next.x] &&
      r.visitedCount == s.visitedCount + (if s.visited[next.y][next.x] then 0 else 1) &&
      (forall y, x :: 0 <= y < s.level.height && 0 <= x < s.level.width && Position(x, y) != next ==>
         r.visited[y][x] == s.visited[y][x])
  {
  }

  /** Every tick keeps visitedCount equal to the number of visited cells. */
  lemma TickKeepsCount(s: Snapshot)
    requires Consistent(s)
    ensures Consistent(Tick(s))
  {
    if s.status == Playing && IsPositionInBounds(NextHead(s), s.level) {
      var next := NextHead(s);
      Mask.CountSetCell(s.visited, next.x, next.y);
    }
  }

  /** Coverage is monotone: a visited cell stays visited and the count never drops. */
  lemma TickMonotone(s: Snapshot)
    requires Ready(s)
    ensures Tick(s).visitedCount >= s.visitedCount
    ensures forall y, x :: 0 <= y < |s.visited| && 0 <= x < |s.visited[y]| && s.visited[y][x] ==>
      Tick(s).visited[y][x]
  {
  }

  /** The state after n ticks. */
  function Run(s: Snapshot, n: nat): (r: Snapshot)
    requires Ready(s)
    ensures Ready(r)
    decreases n
  {
    if n == 0 then s else Run(Tick(s), n - 1)
  }

  /**
   * Over any number of ticks the count invariant holds, coverage only grows, the
   * count stays within width * height, and a game that was not won is never won.
   */
  lemma {:induction false} RunKeepsCoverage(s: Snapshot, n: nat)
    requires Consistent(s)
    ensures var r := Run(s, n);
      Consistent(r) &&
      r.level == s.level &&
      r.visitedCount >= s.visitedCount &&
      r.visitedCount <= s.level.height * s.level.width &&
      (forall y, x :: 0 <= y < s.level.height && 0 <= x < s.level.width && s.visited[y][x] ==> r.visited[y][x]) &&
      (r.status == Won ==> s.status == Won)
    decreases n
  {
    if n == 0 {
      Mask.CountCellsBound(s.visited, s.level.width);
    } else {
      TickKeepsCount(s);
      TickMonotone(s);
      RunKeepsCoverage(Tick(s), n - 1);
    }
  }

  /**
   * The self-collision scenario of the tests: snake (5,5),(4,5),(4,4),(5,4)
   * heading up on the default board. The head moves onto its own body at (5,4)
   * and the game goes on.
   */
  lemma SelfCollisionKeepsPlaying(s: Snapshot)
    requires Ready(s) && s.status == Playing
    requires s.level.width == 16 && s.level.height == 24
    requires s.snake == Snake([Position(5, 5), Position(4, 5), Position(4, 4), Position(5, 4)], Up)
    ensures Tick(s).status == Playing
    ensures Tick(s).snake.segments == [Position(5, 4), Position(5, 5), Position(4, 5), Position(4, 4)]
  {
  }

  /**
   * The mask-wall scenario of the tests: a 5 x 5 board whose column 0 is masked
   * out, head at (1,2) heading left. The head enters the false mask cell (0,2),
   * marks it visited and the game goes on.
   */
  lemma MaskWallKeepsPlaying(s: Snapshot)
    requires Ready(s) && s.status == Playing
    requires s.level.width == 5 && s.level.height == 5 && s.level.mask.Some?
    requires forall y :: 0 <= y < 5 ==> !s.level.mask.value[y][0]
    requires s.snake == Snake([Position(1, 2)], Left)
    ensures !IsPositionTraversible(Position(0, 2), s.level)
    ensures Tick(s).status == Playing
    ensures Tick(s).snake.segments == [Position(0, 2)]
    ensures Tick(s).visited[2][0]
  {
  }

  /**
   * The win scenario of the tests: a line of three true cells, targetCells 3,
   * head at (0,2) heading right with one cell visited. After both ticks every
   * target cell is visited and the status is still playing.
   */
  lemma FullCoverageKeepsPlaying(s: Snapshot)
    requires Consistent(s) && s.status == Playing
    requires s.level.width == 5 && s.level.height == 5 && s.level.targetCells == Some(3)
    requires s.snake == Snake([Position(0, 2)], Right)
    requires s.visitedCount == 1 && s.visited[2][0] && !s.visited[2][1] && !s.visited[2][2]
    ensures Run(s, 2).visitedCount == 3
    ensures Run(s, 2).status == Playing
  {
    TickMoves(s);
    TickMoves(Tick(s));
    assert Run(Tick(s), 1) == Run(Tick(Tick(s)), 0);
  }
}
