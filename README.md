# Snakelle core in Dafny

A model of the logic of Snakelle, a grid snake game whose board can be shaped by
a boolean mask sampled from an emoji glyph, with proofs about it. It covers:

- the **game state model** (`src/game/state.ts`): levels, positions, the
  five-segment starting snake, the visited grid and its running count, and the
  position predicates;
- the **tick engine** (`src/game/update.ts`): one movement step and the direction
  change, both mutating a `GameState` object in place;
- the **mask sampler** (`src/emoji/mask.ts`): downsampling an RGBA buffer to a
  boolean grid, counting true cells, building a level from a mask;
- the **level data** (`src/emoji/levels.ts`): the apple mask, its level record and
  the 1-based lookup;
- the **fixed-timestep scheduler** (`src/game/loop.ts`);
- the **app store** (`src/app/AppState.ts`): current screen, selected level,
  listeners;
- the **string helpers** of the mask debug screen
  (`src/screens/MaskDebugScreen.ts`): `escapeHtml` and `generateMaskCode`.

One Dafny module per source file: `Mask` (mask.dfy), `State` (state.dfy),
`Update` (update.dfy), `Levels` (levels.dfy), `Loop` (loop.dfy), `AppStore`
(app_state.dfy), `MaskDebug` (mask_debug.dfy), plus `Options` (options.dfy) for
optional values.

How the model is built:

- `GameState` is a class with the source's fields (`level`, `snake`, `visited`,
  `visitedCount`, `status`, `lastTickTime`). `UpdateGameState` and
  `ChangeDirection` mutate it and are proved equal to the value-level functions
  `Update.Tick` and `Update.Turn`; the properties of a tick are lemmas about `Tick`.
- The tick engine is modelled as written: it checks only the board edges. It never
  consults the mask, never checks the snake's own segments and never sets `Won`.
  Lemmas show that the test scenarios which expect a loss on a false mask cell, a
  loss on self-collision, or a win on full coverage all end in `Playing` under this
  code.
- `sampleToMask` computes its cell bounds with exact integer floors
  `floor(g * W / gW)`. The `> 0.3` fill rule is `10 * filled > 3 * total`. For
  cells of at most 65536 pixels this equals the floating-point comparison: a
  ratio p/q other than 3/10 lies at least 1/(10q) away from 0.3, far more than
  double rounding.
- The scheduler's closure variables are fields of a `GameLoop` object. The host's
  animation frames are the set of requested ids not yet delivered or cancelled,
  plus the next id a request returns. A delivered frame is the call
  `Frame(id, t, updateStops, drawStops)`, where the two flags say whether the
  `update` or `draw` callback calls `stop`. The clock reading of `start` is a
  parameter. Ghost counters record `update`/`draw` calls. `OneChain()` is the
  intended invariant: while running exactly the held frame is pending, while
  stopped nothing is.
- The app store's listeners are opaque ids kept as a duplicate-free sequence (a
  JavaScript `Set` iterates in insertion order). Calls to listeners are recorded in
  a ghost notification log. `setScreen` replaces the whole state, so omitting the
  level clears it, as the code does. The test at
  `src/app/AppState.test.ts:51-78` expects the level to be kept.
- `generateMaskCode` is paired with a reader `DecodeMaskCode`. `escapeHtml`'s chain
  of replacements is paired with a per-character entity table.

## Model

| member | source | states |
|---|---|---|
| `Mask.CountMaskCells` | src/emoji/mask.ts:166-176 | the nested loop returns exactly the number of true cells of the mask |
| `Mask.CountAllFalse` | src/emoji/mask.ts:166-176 | a mask with no true cell counts 0 |
| `Mask.CountAllTrue` | src/emoji/mask.ts:166-176 | an all-true mask of r rows of c cells counts r * c (single rows and columns included) |
| `Mask.CountCellsBound` | src/emoji/mask.ts:166-176 | a width x height grid has at most width * height true cells |
| `Mask.CountSetCell` | src/game/update.ts:32-35 | setting one cell raises the true-cell count by one exactly when that cell was false |
| `Mask.Sampled` | src/emoji/mask.ts:106-140 | the sampled mask has gridHeight rows of gridWidth cells |
| `Mask.SampleToMask` | src/emoji/mask.ts:94-143 | the four nested loops produce exactly the specified mask: cell (gx, gy) is true iff its floored pixel rectangle is non-empty and 10 * filled > 3 * total, a pixel being filled iff its alpha byte data[(y*W+x)*4+3] reaches the threshold |
| `Mask.CountCellPixels` | src/emoji/mask.ts:116-132 | the two pixel loops count the filled pixels of the cell's rectangle and its area |
| `Mask.CellBoundsInRange` | src/emoji/mask.ts:110-114 | a cell's start bound is at most its end bound, which is at most the image size |
| `Mask.CellBoundEnds` | src/emoji/mask.ts:103-114 | the first cell starts at pixel 0 and the last cell ends at the image size |
| `Mask.CellRangesCover` | src/emoji/mask.ts:110-121 | every pixel column (row) lies in the range of some cell |
| `Mask.CellRangesDisjoint` | src/emoji/mask.ts:110-121 | no pixel column (row) lies in the ranges of two different cells |
| `Mask.TransparentGivesEmptyMask` | src/emoji/mask.ts:124-136 | a fully transparent buffer samples to an all-false mask for any positive threshold |
| `Mask.CreateLevel` | src/emoji/mask.ts:186-201 | with a supplied mask the level keeps width, height, metadata and that mask, and its target is the mask's true-cell count |
| `Mask.CreateLevelTargetBound` | src/emoji/mask.ts:194-200 | the target of a level built from a width x height mask is at most width * height |
| `State.InitialSegments` | src/game/state.ts:84-100 | five segments; segment i is at (floor(w/2) - i, floor(h/2)) |
| `State.InitialSegmentsDistinct` | src/game/state.ts:94-100 | the five initial segments are pairwise distinct |
| `State.InBoundsIsGridCell` | src/game/state.ts:134-136 | `isPositionInBounds` holds exactly when the position indexes a cell of a board-shaped grid (the visited grid or the mask) |
| `State.IsPositionTraversible` | src/game/state.ts:141-154 | false out of bounds, the mask cell when a mask exists, true otherwise; traversable implies in bounds |
| `State.GetNextPosition` | src/game/state.ts:159-170 | exactly one coordinate changes, by one, in the named direction (up decreases y) |
| `State.NextLeavesBoardOnlyAtEdge` | src/game/state.ts:134-136 | from an in-bounds cell a step leaves the board exactly when the cell is on the edge it points at |
| `State.MarkInitialSegments` | src/game/state.ts:102-116 | a cell is marked iff an initial segment lies on it and it is traversable; the count equals the number of marked cells, is at most the number of segments, and equals it when all segments are distinct and traversable |
| `State.CreateGameState` | src/game/state.ts:71-129 | the fresh state has the resolved level, the centred snake heading right, the marked visited grid with a consistent count of at most 5 (exactly 5 when all segments are traversable), status playing and tick time 0 |
| `State.CreateDefaultGameState` | src/game/state.ts:71-78 | with both defaults the state is the open 16 x 24 board with its five starting cells marked and counted |
| `State.DefaultLevelIsOpenBoard` | src/game/state.ts:62-78 | with no argument the level is the open 16 x 24 board |
| `State.OpenBoardStartTraversible` | src/game/state.ts:84-116 | on an open board at least 9 wide all five initial segments are traversable, so five cells start visited |
| `Update.Opposite` | src/game/update.ts:59-64 | the opposite of a direction differs from it and lies on the same axis |
| `Update.OppositeInvolutive` | src/game/update.ts:59-64 | the opposite pairs are symmetric |
| `Update.StepBack` | src/game/state.ts:159-170 | a step followed by a step in the opposite direction returns to the start |
| `Update.Tick` | src/game/update.ts:13-41 | a tick keeps the level, direction, tick time and snake length; does nothing unless playing; its only status change is to lost |
| `Update.UpdateGameState` | src/game/update.ts:13-41 | mutates the state object by exactly one tick and keeps `GameState.Valid()` (the running count equals the visited grid's true cells) |
| `Update.TickOffBoard` | src/game/update.ts:22-26 | a move off the board sets lost and changes nothing else |
| `Update.TickMoves` | src/game/update.ts:28-41 | an in-bounds move puts the new head in front and drops the tail, marks the head's cell, raises the count iff that cell was new, touches no other cell and keeps playing |
| `Update.TickKeepsCount` | src/game/update.ts:31-35 | every tick keeps visitedCount equal to the number of visited cells |
| `Update.TickMonotone` | src/game/update.ts:31-35 | no visited cell reverts and the count never drops |
| `Update.RunKeepsCoverage` | src/game/update.ts:13-41 | over any number of ticks the count invariant holds, coverage only grows, the count stays within width * height, and Won is never reached from another status |
| `Update.SelfCollisionKeepsPlaying` | src/game/update.ts:22-41 | the tests' self-collision scenario moves the head onto its own body and stays playing |
| `Update.MaskWallKeepsPlaying` | src/game/update.ts:22-35 | the tests' mask-wall scenario moves the head onto a false mask cell, marks it and stays playing |
| `Update.FullCoverageKeepsPlaying` | src/game/update.ts:28-41 | the tests' win scenario reaches visitedCount 3 = targetCells after two ticks and stays playing |
| `Update.Turn` | src/game/update.ts:50-71 | only the direction may change; it becomes the new one iff the game is playing and the new one is not the opposite (same and perpendicular directions accepted) |
| `Update.ChangeDirection` | src/game/update.ts:50-71 | mutates the state object by exactly one turn and keeps `GameState.Valid()` |
| `Levels.GetLevel` | src/emoji/levels.ts:78-80 | a level exactly for 1 <= n <= the level count, namely LEVELS[n - 1]; nothing otherwise |
| `Levels.GetLevelCount` | src/emoji/levels.ts:85-87 | the number of levels, which is 1 |
| `Levels.AppleMaskShape` | src/emoji/levels.ts:10-43 | the apple mask has 24 rows of 16 cells |
| `Levels.AppleLevelTarget` | src/emoji/levels.ts:58-64 | the apple level is 16 x 24 with the apple mask, targets the mask's true-cell count (at most 384) and is what createLevel would build |
| `Levels.AppleRow12Full` | src/emoji/levels.ts:29 | row 12 of the apple mask is all true |
| `Levels.AppleStartTraversible` | src/emoji/levels.ts:27-31 | a game on the apple level starts at x = 8..4, y = 12, all on traversable cells |
| `Loop.GameLoop.constructor` | src/game/loop.ts:23-29 | a new loop is not running, holds no frame, has nothing scheduled and has called nothing; one chain holds |
| `Loop.GameLoop.RequestFrame` | src/game/loop.ts:46 | a fresh id is scheduled and held in `animationFrameId` |
| `Loop.GameLoop.Start` | src/game/loop.ts:50-56 | a no-op while running; otherwise running, tick time = now, one fresh frame requested; keeps one chain |
| `Loop.GameLoop.Stop` | src/game/loop.ts:58-64 | not running, no frame held, the held frame cancelled; idempotent; keeps one chain |
| `Loop.GameLoop.IsRunning` | src/game/loop.ts:66-68 | reports the running flag |
| `Loop.GameLoop.Frame` | src/game/loop.ts:31-47 | the delivered frame is consumed; nothing else when not running; otherwise update once iff tickRate has elapsed (tick time then moves to t), draw once, a `stop` from either callback cancels the held frame, and a next frame is requested regardless; keeps one chain when no callback stops |
| `Loop.GameLoop.FrameWhileRunning` | src/game/loop.ts:31-47 | as `Frame`, but the next frame is requested only while still running; keeps one chain whatever the callbacks do |
| `Loop.StartStopIdempotent` | src/game/loop.ts:50-64 | starting twice schedules one frame; stopping twice leaves nothing scheduled |
| `Loop.StopInUpdateThenStart` | src/game/loop.ts:31-64 | an `update` that stops the loop, then `start` before the extra frame fires: two frames pending, and two more after both fire |
| `Loop.StopInUpdateThenStartWhileRunning` | src/game/loop.ts:31-64 | the same calls with `FrameWhileRunning` leave one frame pending |
| `AppStore.Added` | src/app/AppState.ts:34 | adding keeps the set duplicate-free and re-adding is a no-op |
| `AppStore.Removed` | src/app/AppState.ts:35 | removal takes out exactly that listener and keeps the others duplicate-free |
| `AppStore.Notifications` | src/app/AppState.ts:38-40 | one notification per listener, in order, all with the same state |
| `AppStore.NotifiedOnce` | src/app/AppState.ts:38-40 | each subscribed listener is notified exactly once per round and an absent one never |
| `AppStore.AppStateManager.constructor` | src/app/AppState.ts:15-19 | landing screen, no selected level, no listeners |
| `AppStore.AppStateManager.GetState` | src/app/AppState.ts:21-23 | returns a value equal to the current state and changes nothing |
| `AppStore.AppStateManager.SetScreen` | src/app/AppState.ts:25-31 | the state becomes exactly (screen, level), so an omitted level is cleared; every listener is notified with it |
| `AppStore.AppStateManager.Subscribe` | src/app/AppState.ts:33-34 | the listener is added to the set; state and log unchanged |
| `AppStore.AppStateManager.Unsubscribe` | src/app/AppState.ts:35 | removes only that listener and reports whether it was present |
| `AppStore.AppStateManager.NotifyListeners` | src/app/AppState.ts:38-40 | the loop appends one notification per listener, in order |
| `AppStore.UnsubscribeThenNotify` | src/app/AppState.ts:33-40 | after an unsubscribe a screen change reaches every other listener and not the removed one |
| `MaskDebug.ReplaceAll` | src/screens/MaskDebugScreen.ts:21-26 | every character of the result comes from the replacement or is a kept character other than the pattern |
| `MaskDebug.EscapeHtml` | src/screens/MaskDebugScreen.ts:20-27 | the output contains none of the characters <, >, " and ' |
| `MaskDebug.EscapeHtmlConcat` | src/screens/MaskDebugScreen.ts:20-27 | escaping distributes over concatenation |
| `MaskDebug.EscapeHtmlChar` | src/screens/MaskDebugScreen.ts:21-26 | on one character escaping gives its entity: no replacement text is rewritten by a later replacement |
| `MaskDebug.EscapeHtmlIsPerChar` | src/screens/MaskDebugScreen.ts:20-27 | escaping equals per-character substitution by the table & -> &amp;, < -> &lt;, > -> &gt;, " -> &quot;, ' -> &#039; |
| `MaskDebug.EscapeHtmlPlain` | src/screens/MaskDebugScreen.ts:20-27 | a string with none of the five special characters is returned unchanged |
| `MaskDebug.Join` | src/screens/MaskDebugScreen.ts:161-163 | joined text holds only characters of the parts and the separator |
| `MaskDebug.GenerateMaskCodeEnds` | src/screens/MaskDebugScreen.ts:159-166 | `generateMaskCode`'s text starts with the header line naming the emoji and ends with the closing line; `GeneratedLines` gives the lines between and `GenerateMaskCodeRoundTrip` reads it back |
| `MaskDebug.RowLineRoundTrip` | src/screens/MaskDebugScreen.ts:160-163 | a row line "  [cells]," reads back as its row: one true/false entry per cell |
| `MaskDebug.GeneratedLines` | src/screens/MaskDebugScreen.ts:159-166 | the text's lines are the header, the declaration, one line per mask row, and the closing line |
| `MaskDebug.GenerateMaskCodeRoundTrip` | src/screens/MaskDebugScreen.ts:159-166 | the generated text reads back as the emoji and the mask, with mask-height + 3 lines |

## Left out

- `renderEmojiToCanvas`, `generateEmojiMask` and the branch of `createLevel` that generates a mask: they need the Canvas 2D API and font rasterisation. The pixel buffer is an input of `SampleToMask`.
- `debugPrintMask`: console output only.
- Floating point: `sampleToMask` divides image size by grid size in doubles. The model uses the exact floor `floor(g * W / gW)`, which can differ from the double computation by rounding. The debug screen's `toFixed` ratio and `calculateCellSize` are not modelled.
- Grid sizes, board sizes and times are integers. Fractional sizes are not modelled; for a fractional grid size the source's loops would run one extra column. Levels have non-negative width and height. A mask must have a cell for every board cell (`State.ValidLevel`); ragged masks are not modelled.
- `requestAnimationFrame`, `cancelAnimationFrame` and `performance.now`: the scheduled-id set, `Frame(id, t, ...)` and the `now` parameter stand for them. The host is assumed to deliver each pending frame once, in any order the caller chooses.
- Loop.GameLoop.Frame: a callback that calls `start` is not modelled. While the loop runs such a call is a no-op; after a `stop` in the same callback it would start a further chain.
- Default arguments: `sampleToMask`'s threshold and `createGameLoop`'s tick rate are explicit parameters; callers pass `Mask.ALPHA_THRESHOLD` and `Loop.DEFAULT_TICK_RATE` for the defaults. The no-argument `createGameState` is `State.CreateDefaultGameState`.
- Listener callbacks: they are ids and a ghost notification log. A listener that subscribes or unsubscribes during a notification round is not modelled.
- Aliasing: levels, masks, snakes and the visited grid are values. The model does not capture that the state shares the caller's mask object, nor that mutating it later would show through the state. The visited grid is reassigned as a whole rather than written cell by cell in shared row arrays.
- Behaviour that only the tests expect, not the code: size validation errors and flooring of fractional grid sizes (`src/emoji/mask.test.ts:60-88`, `src/emoji/mask.test.ts:131-184`), loss on a false mask cell or on self-collision and the won status (`src/game/update.test.ts:107-120`, `src/game/mask-integration.test.ts:30-56`, `src/game/mask-integration.test.ts:155-272`), keeping the selected level across `setScreen` (`src/app/AppState.test.ts:51-78`). The model follows the code. `Update.SelfCollisionKeepsPlaying`, `Update.MaskWallKeepsPlaying` and `Update.FullCoverageKeepsPlaying` show what the code does in those scenarios.
- UI and input: `src/render/board.ts`, `src/App.ts`, the landing, level-select and game screens, the DOM parts of the mask debug screen and `src/input/keyboard.ts` are not part of this model.
- Emoji metadata (name, description, difficulty) is carried as opaque fields.
- Levels.AppleLevelTarget: states that the target is the mask's true-cell count and at most 384, not its literal value (242).

## Findings

| source | as written | input that shows it | evidently intended | confidence | as-written member | corrected member |
|---|---|---|---|---|---|---|
| src/game/loop.ts:43-46 | `gameLoop` requests the next frame after the callbacks even when one of them called `stop()` | `update` calls `stop()`, then `start()` is called before the frame requested after it fires | one active callback chain, as `start`'s early return intends | medium; not executed, and no caller in the sources stops the loop from a callback | `Loop.StopInUpdateThenStart` | `Loop.GameLoop.FrameWhileRunning` |
