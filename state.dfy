/**
 * Game state model (src/game/state.ts): board, snake, visited grid and status,
 * the construction of the starting state and the position predicates.
 */
module State {
  import opened Options
  import Mask

  datatype Direction = Up | Down | Left | Right

  datatype Position = Position(x: int, y: int)

  /** Head first: `segments[0]` is the head, the last segment the tail. */
  datatype Snake = Snake(segments: seq<Position>, direction: Direction)

  datatype GameStatus = Idle | Playing | Won | Lost

  /** A board of width x height cells, optionally shaped by a mask (`true` = traversable). */
  datatype Level = Level(width: int, height: int, mask: Option<Mask.EmojiMask>, targetCells: Option<int>)

  /** The first argument of createGameState: a Level, or a board width. */
  datatype LevelOrWidth = GivenLevel(level: Level) | GivenWidth(width: int)

  /** The value of a GameState object at one moment. */
  datatype Snapshot = Snapshot(
    level: Level,
    snake: Snake,
    visited: seq<seq<bool>>,
    visitedCount: int,
    status: GameStatus,
    lastTickTime: int)

  const DEFAULT_BOARD_WIDTH := 16
  const DEFAULT_BOARD_HEIGHT := 24

  /** Non-negative dimensions; a mask, when present, has a cell for every board cell. */
  predicate ValidLevel(level: Level) {
    level.width >= 0 && level.height >= 0 &&
    (level.mask.Some? ==> Mask.IsGrid(level.mask.value, level.width, level.height))
  }

  /** A snapshot that a tick can be applied to: the visited grid matches the board and a playing snake has a head. */
  predicate Ready(s: Snapshot) {
    ValidLevel(s.level) &&
    Mask.IsGrid(s.visited, s.level.width, s.level.height) &&
    (s.status == Playing ==> |s.snake.segments| >= 1)
  }

  /** Ready, and the running count agrees with the visited grid. */
  predicate Consistent(s: Snapshot) {
    Ready(s) && s.visitedCount == Mask.CountCells(s.visited)
  }

  /** An emoji level read as a board level (the two record types are structurally compatible). */
  function FromEmojiLevel(level: Mask.EmojiLevel): Level {
    Level(level.width, level.height, Some(level.mask), Some(level.targetCells))
  }

  /** The level createGameState plays on: a number selects an open board of that size. */
  function ResolveLevel(levelOrWidth: LevelOrWidth, height: int): Level {
    match levelOrWidth
    case GivenLevel(level) => level
    case GivenWidth(width) => Level(width, height, None, None)
  }

  /** The initial five segments, head at the board centre, body extending left. */
  function InitialSegments(level: Level): (segments: seq<Position>)
    ensures |segments| == 5
    ensures forall i :: 0 <= i < 5 ==> segments[i] == Position(segments[0].x - i, segments[0].y)
    ensures 2 * segments[0].x <= level.width < 2 * segments[0].x + 2
    ensures 2 * segments[0].y <= level.height < 2 * segments[0].y + 2
  {
    var startX := level.width / 2;
    var startY := level.height / 2;
    [Position(startX, startY), Position(startX - 1, startY), Position(startX - 2, startY),
     Position(startX - 3, startY), Position(startX - 4, startY)]
  }

  predicate Distinct(segments: seq<Position>) {
    forall i, j :: 0 <= i < j < |segments| ==> segments[i] != segments[j]
  }

  lemma InitialSegmentsDistinct(level: Level)
    ensures Distinct(InitialSegments(level))
  {
  }

  function IsPositionInBounds(pos: Position, level: Level): bool {
    pos.x >= 0 && pos.x < level.width && pos.y >= 0 && pos.y < level.height
  }

  /**
   * In bounds exactly when the position indexes a cell of a grid shaped like
   * the board (the visited grid, or the level's mask).
   */
  lemma InBoundsIsGridCell(pos: Position, level: Level, g: seq<seq<bool>>)
    requires Mask.IsGrid(g, level.width, level.height)
    ensures IsPositionInBounds(pos, level) <==> 0 <= pos.y < |g| && 0 <= pos.x < |g[pos.y]|
  {
  }

  /** Traversable: in bounds and, when the level has a mask, on a true mask cell. */
  function IsPositionTraversible(pos: Position, level: Level): (r: bool)
    requires ValidLevel(level)
    ensures r ==> IsPositionInBounds(pos, level)
    ensures level.mask.None? ==> (r <==> IsPositionInBounds(pos, level))
    ensures level.mask.Some? && IsPositionInBounds(pos, level) ==> r == level.mask.value[pos.y][pos.x]
  {
    if !IsPositionInBounds(pos, level) then false
    else if level.mask.Some? then level.mask.value[pos.y][pos.x]
    else true
  }

  /** One cell in the given direction; `Up` decreases y. */
  function GetNextPosition(pos: Position, direction: Direction): (next: Position)
    ensures (next.x - pos.x) * (next.x - pos.x) + (next.y - pos.y) * (next.y - pos.y) == 1
    ensures direction.Up? || direction.Down? <==> next.x == pos.x
    ensures direction == Up ==> next.y < pos.y
    ensures direction == Down ==> next.y > pos.y
    ensures direction == Left ==> next.x < pos.x
    ensures direction == Right ==> next.x > pos.x
  {
    match direction
    case Up => Position(pos.x, pos.y - 1)
    case Down => Position(pos.x, pos.y + 1)
    case Left => Position(pos.x - 1, pos.y)
    case Right => Position(pos.x + 1, pos.y)
  }

  /**
   * From an in-bounds cell, one step leaves the board exactly when the cell is on
   * the edge the step points at: no off-by-one at x = width - 1 or y = 0.
   */
  lemma NextLeavesBoardOnlyAtEdge(pos: Position, direction: Direction, level: Level)
    requires IsPositionInBounds(pos, level)
    ensures !IsPositionInBounds(GetNextPosition(pos, direction), level) <==>
      match direction
      case Up => pos.y == 0
      case Down => pos.y == level.height - 1
      case Left => pos.x == 0
      case Right => pos.x == level.width - 1
  {
  }

  /** The visited cells of a fresh game: the traversable cells some initial segment lies on. */
  ghost predicate MarksExactly(visited: seq<seq<bool>>, level: Level, segments: seq<Position>)
    requires ValidLevel(level)
  {
    Mask.IsGrid(visited, level.width, level.height) &&
    forall y, x :: 0 <= y < level.height && 0 <= x < level.width ==>
      (visited[y][x] <==> Position(x, y) in segments && IsPositionTraversible(Position(x, y), level))
  }

  predicate AllTraversible(segments: seq<Position>, level: Level)
    requires ValidLevel(level)
  {
    forall i :: 0 <= i < |segments| ==> IsPositionTraversible(segments[i], level)
  }

  /** With distinct segments, the cell of segment i is not yet marked by the segments before it. */
  lemma DistinctSegmentUnmarked(visited: seq<seq<bool>>, level: Level, segments: seq<Position>, i: nat)
    requires ValidLevel(level) && i < |segments| && Distinct(segments)
    requires MarksExactly(visited, level, segments[..i])
    requires IsPositionInBounds(segments[i], level)
    ensures !visited[segments[i].y][segments[i].x]
  {
  }

  /**
   * The marking loop of createGameState: starting from an all-false grid, each
   * segment that is in bounds and unmasked (or on a true mask cell) is marked
   * once, and the count goes up when a cell is first marked.
   */
  method MarkInitialSegments(level: Level, segments: seq<Position>) returns (visited: seq<seq<bool>>, visitedCount: nat)
    requires ValidLevel(level)
    ensures MarksExactly(visited, level, segments)
    ensures visitedCount == Mask.CountCells(visited)
    ensures visitedCount <= |segments|
    ensures AllTraversible(segments, level) && Distinct(segments) ==> visitedCount == |segments|
  {
    visited := seq(level.height, _ => seq(level.width, _ => false));
    visitedCount := 0;
    Mask.CountAllFalse(visited);
    for i := 0 to |segments|
      invariant MarksExactly(visited, level, segments[..i])
      invariant visitedCount == Mask.CountCells(visited)
      invariant visitedCount <= i
      invariant AllTraversible(segments, level) && Distinct(segments) ==> visitedCount == i
    {
      var segment := segments[i];
      assert segments[..i + 1] == segments[..i] + [segment];
      if segment.y >= 0 && segment.y < level.height && segment.x >= 0 && segment.x < level.width {
        if level.mask.None? || level.mask.value[segment.y][segment.x] {
          if AllTraversible(segments, level) && Distinct(segments) {
            DistinctSegmentUnmarked(visited, level, segments, i);
          }
          if !visited[segment.y][segment.x] {
            Mask.CountSetCell(visited, segment.x, segment.y);
            visited := Mask.SetCell(visited, segment.x, segment.y);
            visitedCount := visitedCount + 1;
          }
        }
      }
    }
    assert segments[..|segments|] == segments;
  }

  /** A GameState object; createGameState returns a fresh one and the update engine mutates it. */
  class GameState {
    var level: Level
    var snake: Snake
    var visited: seq<seq<bool>>
    var visitedCount: int
    var status: GameStatus
    var lastTickTime: int

    constructor (level: Level, snake: Snake, visited: seq<seq<bool>>, visitedCount: int, status: GameStatus, lastTickTime: int)
      ensures Value() == Snapshot(level, snake, visited, visitedCount, status, lastTickTime)
    {
      this.level := level;
      this.snake := snake;
      this.visited := visited;
      this.visitedCount := visitedCount;
      this.status := status;
      this.lastTickTime := lastTickTime;
    }

    function Value(): Snapshot
      reads this
    {
      Snapshot(level, snake, visited, visitedCount, status, lastTickTime)
    }

    ghost predicate Valid()
      reads this
    {
      Consistent(Value())
    }
  }

  /**
   * createGameState: a 5-segment snake at the board centre heading right, the
   * visited grid marking the traversable cells it covers, status playing.
   * The state's level is the caller's level value (the mask is shared).
   */
  method CreateGameState(levelOrWidth: LevelOrWidth, height: int) returns (state: GameState)
    requires ValidLevel(ResolveLevel(levelOrWidth, height))
    ensures fresh(state) && state.Valid()
    ensures state.level == ResolveLevel(levelOrWidth, height)
    ensures state.snake == Snake(InitialSegments(state.level), Right)
    ensures MarksExactly(state.visited, state.level, state.snake.segments)
    ensures state.visitedCount <= 5
    ensures AllTraversible(state.snake.segments, state.level) ==> state.visitedCount == 5
    ensures state.status == Playing && state.lastTickTime == 0
  {
    var level := ResolveLevel(levelOrWidth, height);
    var initialSegments := InitialSegments(level);
    InitialSegmentsDistinct(level);
    var visited, visitedCount := MarkInitialSegments(level, initialSegments);
    state := new GameState(level, Snake(initialSegments, Right), visited, visitedCount, Playing, 0);
  }

  /**
   * createGameState(): both defaults, so an open 16 x 24 board whose five
   * starting cells are all marked.
   */
  method CreateDefaultGameState() returns (state: GameState)
    ensures fresh(state) && state.Valid()
    ensures state.level == Level(DEFAULT_BOARD_WIDTH, DEFAULT_BOARD_HEIGHT, None, None)
    ensures state.snake == Snake(InitialSegments(state.level), Right)
    ensures MarksExactly(state.visited, state.level, state.snake.segments)
    ensures state.visitedCount == 5
    ensures state.status == Playing && state.lastTickTime == 0
  {
    OpenBoardStartTraversible(DEFAULT_BOARD_WIDTH, DEFAULT_BOARD_HEIGHT);
    state := CreateGameState(GivenWidth(DEFAULT_BOARD_WIDTH), DEFAULT_BOARD_HEIGHT);
  }

  /** With no argument the board is the open default 16 x 24 rectangle. */
  lemma DefaultLevelIsOpenBoard()
    ensures ResolveLevel(GivenWidth(DEFAULT_BOARD_WIDTH), DEFAULT_BOARD_HEIGHT) == Level(16, 24, None, None)
  {
  }

  /** On an open board at least 9 x 1 the whole initial snake is on traversable cells. */
  lemma OpenBoardStartTraversible(width: int, height: int)
    requires width >= 9 && height >= 1
    ensures AllTraversible(InitialSegments(Level(width, height, None, None)), Level(width, height, None, None))
  {
  }
}
