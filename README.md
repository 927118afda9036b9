# yan dash: a verified model of the game logic

yan dash is a small side-scrolling platformer written against pygame. The
player is a 50×50 square at a fixed screen column (x = 800 // 3 = 266). It
moves only vertically, under gravity and a jump impulse. The camera scrolls
the tile map past the player at 5 pixels per frame. A level is a text file:
`#` is ground, `D` is a danger tile, `p` marks the row the player starts in,
and every other character is empty. The game has three states: the menu,
playing and game over.

This project models all of the game logic in `geometry_dash.py`:

- the level loader `load_level`,
- `reset_game`,
- the per-frame physics and collision block,
- the key-event state machine and the frame loop that drives them.

It proves the behaviour the code promises. All quantities are Python
integers, so they are modelled as unbounded `int`.

The project has two layers:

- **Values** (`Settings`, `Level`, `Physics`, `Game`). Tiles, rectangles,
  the session state as a datatype `Game.Session`, and every transition as a
  function: `Load`, `Reset`, `Step`, `OnKey`, `OnKeys`, `Frame`, `Run`.
  The properties of the game are lemmas about these functions.
- **The running program** (`GameLoop.GameSession`). A class whose fields
  are the program's module globals. Its methods update those fields in
  place, with the same loops as the source: the nested line/character loop
  of the loader, and the nested row/column loop of the collision pass. The
  line loop stays in `LoadLevel`; the character loop over one line is split
  out as `ReadLine`. The row loop stays in `PhysicsStep`; the column loop
  over one row is split out as `CollideRow`, and the test of one tile as
  `Collide`.
  Each of `LoadLevel`, `Reset`, `PhysicsStep`, `HandleKey`, `HandleEvents`,
  `Frame` and `Run` is proved to leave `Snapshot()` equal to the matching
  `Game` function applied to the old snapshot. So every lemma about `Game`
  also holds for the object. The three split-out parts are proved against
  the value functions they implement: `ReadLine` returns `Level.ParseRow`
  of its line, and `CollideRow` and `Collide` leave the player's fields
  equal to `Physics.Scan` over the row's cells and `Physics.TileStep` of
  one cell, applied to the old fields taken as a `Physics.Body`.

Inputs that come from outside the program are parameters:

- The `levels/` directory is a map from a level number to the lines of
  `levels/level-<n>.txt`. A missing key is a missing file.
- The key-down events of a frame are a sequence of `Key`.
- The state of the space bar is a boolean `jumpHeld`, sampled once per
  frame.

Four consequences of the code are easy to misread, and the model states
them as lemmas:

- **Which ground tile wins.** Several ground tiles can overlap a falling
  player at once. The first one the pass reaches sets the velocity to 0, so
  the `velocity > 0` test fails for every later tile. The FIRST overlapping
  ground tile in row-major order therefore decides the landing height, and
  the player moves at most once per pass (`Physics.ScanLanding`,
  `Game.StepLanding`).
- **Which danger tile kills.** Each tile is tested against the player's
  position at the moment the pass reaches it. Tiles before the landing tile
  see the height after gravity. Tiles after it see the resting height, on
  top of the landing tile, and at that height the player overlaps only
  tiles of the row above, which the pass has already visited
  (`Physics.RestingRow`, `Game.NoDeathAfterLanding`). So the player dies iff
  some danger tile overlaps it after gravity and the pass reaches that tile
  before any ground tile that stops the fall (`Physics.ScanDanger`,
  `Game.StepDanger`). Ground tiles stop only a falling player: at velocity
  0 or below after gravity, for example at the top of a jump, an overlapping
  ground tile does not keep a danger tile from killing it
  (`Game.ExampleDeathAtApex`). A danger tile that overlaps the player after gravity
  but comes after the landing tile, for example one just below and to the
  right of it, does not kill (`Physics.ExampleDangerAfterLanding`,
  `Game.ExampleLandingAboveDanger`).
- **Stripping.** Each line goes through `line.strip()`. This strips
  whitespace at BOTH ends, using Python's whitespace set (`Level.IsSpace`).
- **Redundant guard.** The frame tests `is_alive` after testing for the
  playing state. In every reachable session, playing implies alive
  (`Game.Consistent`), so that test never fails.

## Model

| member | source | states |
|---|---|---|
| Level.Strip | geometry_dash.py:69 | definition of `line.strip()`; its properties are stated by `Level.StripIsSlice` and `Level.StripKeeps` |
| Level.TileOf | geometry_dash.py:70-79 | definition of the character-to-tile mapping; its properties are stated by `Level.ParseLevelShape` |
| Level.ParseRow | geometry_dash.py:70-79 | definition of one parsed row; its properties are stated by `Level.ParseLevelShape` |
| Level.ParseLevel | geometry_dash.py:66-79 | definition of the parsed map; its properties are stated by `Level.ParseLevelShape` and `Level.ExampleLevel` |
| Level.SpawnY | geometry_dash.py:67-75 | definition of the spawn height; its properties are stated by `Level.SpawnWithoutMarker`, `Level.SpawnFromLastMarker`, `Level.SpawnIsMarkerRow` and `Level.SpawnIdempotent` |
| Physics.Cells | geometry_dash.py:150-151 | definition of the collision pass's visiting order; its properties are stated by `Physics.CellsOfLevel` and `Physics.CellsRowMajor` |
| Physics.TileStep | geometry_dash.py:152-166 | definition of one tile's test; its effect over a whole pass is stated by `Physics.ScanLanding`, `Physics.ScanDanger` and `Physics.ScanNotFalling` |
| Physics.Scan | geometry_dash.py:150-166 | definition of the collision pass; its properties are stated by `Physics.ScanLanding`, `Physics.ScanDanger`, `Physics.ScanNotFalling` and `Physics.ScanAppend` |
| Game.Load | geometry_dash.py:60-83 | definition of `load_level`; its properties are stated by `Game.LoadMissing`, `Game.LoadPresent` and `Game.LoadIdempotent` |
| Game.Reset | geometry_dash.py:85-94 | definition of `reset_game`; its properties are stated by `Game.ResetOutcome`, `Game.ResetDependsOnlyOnLevel` and `Game.ResetIdempotent` |
| Game.Launch | geometry_dash.py:140-146 | definition of the jump impulse and gravity before the collision pass; its effect is stated by `Game.StepLanding` and `Game.StepDanger` |
| Game.Step | geometry_dash.py:137-173 | definition of one physics step; its properties are stated by `Game.StepLanding`, `Game.StepDanger` and `Game.StepScrolls` |
| Game.OnKey | geometry_dash.py:118-130 | definition of one key-down event; its properties are stated by `Game.OnKeyOutcome` and `Game.NewGameForgetsHistory` |
| Game.OnKeys | geometry_dash.py:115-130 | definition of a frame's key-down events in order; its invariant is stated by `Game.OnKeysConsistent` |
| Game.Frame | geometry_dash.py:115-173 | definition of one frame; its properties are stated by `Game.FrameRunsPhysicsOnlyWhenPlaying` and `Game.FrameConsistent` |
| Game.Run | geometry_dash.py:113-173 | definition of the frame loop; its properties are stated by `Game.RunConsistent` and `Game.RunScrolls` |
| Level.StripIsSlice | geometry_dash.py:69 | `line.strip()` returns a contiguous slice of the line; everything cut off at either end is whitespace, and the result neither starts nor ends with whitespace |
| Level.StripKeeps | geometry_dash.py:69-75 | a non-whitespace character (such as the marker `p`) is in the stripped line iff it is in the line |
| Level.ParseLevelShape | geometry_dash.py:66-79 | the map has one row per line; row i has as many tiles as the stripped line i has characters; tile j is Ground iff character j is `#`, Danger iff it is `D`, and Empty otherwise |
| Level.SpawnWithoutMarker | geometry_dash.py:67-75 | when no line has a `p`, reading the file leaves the player's height unchanged |
| Level.SpawnFromLastMarker | geometry_dash.py:67-75 | the player's height is the row of the LAST line with a `p`, times 50 |
| Level.SpawnIsMarkerRow | geometry_dash.py:67-75 | after reading, the player's height is its old value or 50 times the row of a line with a `p` |
| Level.SpawnIdempotent | geometry_dash.py:67-75 | reading the same lines a second time does not move the spawn point |
| Level.ExampleLevel | geometry_dash.py:66-79 | the four-line example map, each line ending in a newline, parses to a ground row, an empty row, a row with one danger tile in column 2, and the spawn row 3 (height 150) |
| Level.StripNewline | geometry_dash.py:69 | a line ending in a newline, whose text neither starts nor ends with whitespace, strips to that text |
| Physics.CellsOfLevel | geometry_dash.py:150-151 | the collision pass visits exactly the tiles of the map: every visited cell holds the tile at its position, and every position is visited |
| Physics.CellsRowMajor | geometry_dash.py:150-151 | the pass visits the tiles row by row from the top, each row from the left, each tile once |
| Physics.ScanLanding | geometry_dash.py:149-161 | the player lands iff it is falling and some ground tile overlaps its integrated position; it rests on the first such tile in visiting order, bottom edge on the tile's top edge, with velocity 0 and no longer jumping; otherwise its position, velocity and jumping flag are untouched |
| Physics.ScanDanger | geometry_dash.py:152-166 | the pass leaves the player alive iff it was alive and no danger tile struck it, and sets the game over iff one did; a danger tile strikes iff it overlaps the player at the height it has when the pass reaches it: the height after gravity if no earlier ground tile stopped the fall, else the resting height on the first landing tile; so life and state are either untouched or dead and game over |
| Physics.RestingRow | geometry_dash.py:155-158 | a player resting on top of a tile overlaps only tiles of the row directly above that tile |
| Physics.ExampleDangerAfterLanding | geometry_dash.py:150-166 | a player falling at velocity 5 to height 60 overlaps a ground tile at row 1 and a danger tile at row 2; it lands on the ground tile at height 0 first and survives, still playing |
| Physics.ScanNotFalling | geometry_dash.py:155-161 | while the velocity is not positive, ground tiles change neither the position, the velocity nor the jumping flag |
| Physics.ScanAppend | geometry_dash.py:150-151 | the pass over the whole map is the pass over the rows one after another |
| Game.LoadMissing | geometry_dash.py:63-83 | when the level file is missing, the map is empty, the state is the menu, and nothing else changes |
| Game.LoadPresent | geometry_dash.py:63-79 | when the file is present, the map is exactly the parsed file whatever it was before, the state is kept, only the height and the map change, and the height is the old one or a marker row's |
| Game.LoadIdempotent | geometry_dash.py:60-83 | the map is cleared before it is rebuilt, so loading the same level twice gives the same session as loading it once |
| Game.ResetOutcome | geometry_dash.py:85-94 | after a reset: velocity 0, not jumping, alive, camera 0, the same level number; playing with the level's map if its file exists, else back in the menu with an empty map and the player at 500; with the file, the player is at the file's spawn height (`Level.SpawnY` from 500: the row of the last line with a `p`, times 50, by `Level.SpawnFromLastMarker`), which is 500 or a marker row |
| Game.ResetDependsOnlyOnLevel | geometry_dash.py:85-94 | a reset forgets everything but the level number |
| Game.ResetIdempotent | geometry_dash.py:85-94 | resetting twice gives the same session as resetting once |
| Game.LandingInGrid | geometry_dash.py:150-161 | in grid terms, the pass lands the player iff it is falling and some ground tile overlaps it; it then rests on top of the first such tile in row-major order with velocity 0, not jumping; otherwise height and velocity are untouched |
| Game.StepLanding | geometry_dash.py:140-170 | velocity becomes (-20 if jump is held and the player is not jumping, else the old velocity) + 1, and the height gains the new velocity; if the player is then falling onto ground, it rests on the first overlapping ground tile in row-major order (height = row·50 − 50), stops and is not jumping; otherwise it keeps the new height and velocity and is jumping |
| Game.NoDeathAfterLanding | geometry_dash.py:150-166 | on a map scanned in row-major order, no tile after the first landing tile overlaps the player at its resting height, so none can kill it |
| Game.StruckInGrid | geometry_dash.py:150-166 | in grid terms, the pass strikes the player iff some danger tile overlaps it after gravity and it is not the case that the player is falling (velocity > 0) and a ground tile earlier in row-major order overlaps it |
| Game.StepDanger | geometry_dash.py:140-166 | after a step the player is alive iff it was alive and not killed, and the game is over iff it was killed or was already over, where killed means: a danger tile overlaps the player at its height after the jump impulse and gravity, and, only while the player is falling (velocity > 0 after gravity), no ground tile earlier in row-major order overlaps it; at velocity 0 or below, ground tiles never save it; so life and state are either untouched or dead and game over |
| Game.ExampleLandingAboveDanger | geometry_dash.py:140-166 | a player at height 55 and velocity 4 reaches height 60 after gravity, where it overlaps a ground tile at row 1, column 5 and a danger tile at row 2, column 6; it lands at height 0, stops, and stays alive and playing although the danger tile overlapped its height after gravity |
| Game.ExampleDeathAtApex | geometry_dash.py:145-166 | a player at height 60 with velocity −1 has velocity 0 after gravity; it overlaps a ground tile at row 1, column 5 and a danger tile at row 2, column 6, is not snapped by the ground tile, and dies with the game over at height 60 |
| Game.StepScrolls | geometry_dash.py:172-173 | a step moves the camera by exactly 5, even in the step in which the player dies, and never changes the map or the level number |
| Game.ExampleLanding | geometry_dash.py:140-161 | a player falling at velocity 4 from height −30 onto a ground row lands at height −50 with velocity 0, not jumping, alive, camera 5 |
| Game.OnKeyOutcome | geometry_dash.py:118-130 | keys 1, 2, 3 in the menu and r in game over reset the game to level 1, to the current level, to the next level, and to the current level: at rest, alive, camera 0, playing that level's map if its file exists, else in the menu with an empty map; the player at 500 without the file, else at the file's spawn height (`Level.SpawnY` from 500), which is 500 or a marker row; every other key, and every key while playing, changes nothing |
| Game.NewGameForgetsHistory | geometry_dash.py:119-122 | starting a new game from the menu gives the same session whatever the previous game was |
| Game.FrameRunsPhysicsOnlyWhenPlaying | geometry_dash.py:133-137 | after the key events, a frame runs the physics step (moving the camera by 5) iff the game is playing and the player is alive, and otherwise changes nothing more |
| Game.InitialConsistent | geometry_dash.py:26-46 | the starting session has the invariant: level ≥ 1, alive iff not game over, camera a nonnegative multiple of 5 |
| Game.OnKeysConsistent | geometry_dash.py:115-130 | key events keep the invariant |
| Game.FrameConsistent | geometry_dash.py:115-173 | a frame keeps the invariant |
| Game.RunConsistent | geometry_dash.py:113-173 | any run of frames keeps the invariant |
| Game.RunScrolls | geometry_dash.py:137-173 | over frames without key events that start in play, the camera never moves back and moves at most 5 per frame; while the player lives, the game stays in play and the camera moved exactly 5 per frame; once the player is dead the game is over; the map and level number stay |
| GameLoop.GameSession.constructor | geometry_dash.py:26-46 | the fields start as height 500, at rest, not jumping, alive, camera 0, the menu, level 1, an empty map |
| GameLoop.GameSession.LoadLevel | geometry_dash.py:60-83 | the nested line and character loops leave the session as `Game.Load` describes |
| GameLoop.GameSession.ReadLine | geometry_dash.py:70-79 | the character loop over one stripped line returns its parsed row, and moves the player to the line's top iff the line holds a `p`; nothing else changes |
| GameLoop.GameSession.Reset | geometry_dash.py:85-94 | the session is `Game.Reset` of the old one: at rest, alive, camera 0, same level, playing iff the level file exists |
| GameLoop.GameSession.PhysicsStep | geometry_dash.py:137-173 | the session is `Game.Step` of the old one; the camera gains 5; the map and the level number are unchanged |
| GameLoop.GameSession.CollideRow | geometry_dash.py:151-166 | the loop over one row has the effect of visiting its tiles left to right |
| GameLoop.GameSession.Collide | geometry_dash.py:152-166 | one tile's rectangle test has the effect of `Physics.TileStep` |
| GameLoop.GameSession.HandleKey | geometry_dash.py:118-130 | one key-down event changes the session as `Game.OnKey` describes |
| GameLoop.GameSession.HandleEvents | geometry_dash.py:115-130 | the frame's key-down events are handled in order |
| GameLoop.GameSession.Frame | geometry_dash.py:115-173 | one frame is `Game.Frame`, and it keeps the invariant |
| GameLoop.GameSession.Run | geometry_dash.py:113-173 | the frame loop is `Game.Run`, and it keeps the invariant |

## Left out

- Window creation, image and font loading, the menu screen, all drawing
  and blitting, `pygame.display.flip` and the frame-rate cap
  (geometry_dash.py:1-22, 48-58, 96-109, 175-204). These are presentation
  and calls into pygame.
- Event polling and `pygame.key.get_pressed`. The key-down events of a
  frame are a parameter, and so is whether space is held.
- The QUIT event, `pygame.quit()` and `sys.exit()` (geometry_dash.py:116-117,
  206-208). These end the process.
- File I/O and the message printed for a missing level. A level file is
  given as the lines Python yields when iterating over it. Splitting the
  text into lines and decoding it are not modelled. Read errors other than
  a missing file are not modelled either.
- `pygame.Rect.colliderect` is a foreign call. It is replaced by the
  strict-overlap predicate `Physics.Overlaps`, which is an assumption about
  pygame. The assumption is right for the 50×50 rectangles used here.
- pygame stores `Rect` coordinates as C `int`. Values outside the 32-bit
  range would make the real program raise an error. The model keeps
  unbounded integers and does not model that failure. A player falling
  freely gains 1 in velocity per frame, so its height passes 2^31 after
  about 65 536 frames, about 18 minutes at 60 frames per second. The camera
  offset passes 2^31 after about 430 million frames, about 83 days.
