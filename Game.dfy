/** The game as a whole, as values: the session state, loading a level,
    resetting, one physics step, key events, frames and runs of frames.
    GameLoop.GameSession performs the same transitions in place. */
module Game {
  import opened Settings
  import opened Level
  import opened Physics

  /** The level files present: level number `n` maps to the lines of the
      file `levels/level-<n>.txt`; a missing key is a missing file. */
  type LevelFiles = map<int, seq<string>>

  /** The keys the game reacts to; every other key is `OtherKey`. */
  datatype Key = Digit1 | Digit2 | Digit3 | LetterR | OtherKey

  /** The keys pressed during one frame and whether the jump key is held. */
  datatype FrameInput = FrameInput(keys: seq<Key>, jumpHeld: bool)

  /** Everything the game logic reads and writes. */
  datatype Session = Session(
    playerY: int, velY: int, isJumping: bool, isAlive: bool, cameraOffset: int,
    state: GameState, currentLevel: int, levelData: seq<seq<Tile>>)

  /** The state the program starts in. */
  const INITIAL := Session(START_Y, 0, false, true, 0, Menu, FIRST_LEVEL, [])

  /** Loading level `n`: the map is cleared, then rebuilt from the file and
      the player placed at its marker; a missing file leaves the map empty
      and returns to the menu. */
  function Load(s: Session, n: int, files: LevelFiles): Session {
    if n in files then s.(levelData := ParseLevel(files[n]), playerY := SpawnY(files[n], s.playerY))
    else s.(levelData := [], state := Menu)
  }

  /** Restarting the current level. */
  function Reset(s: Session, files: LevelFiles): Session {
    var started := s.(playerY := START_Y, velY := 0, isJumping := false, isAlive := true,
                    cameraOffset := 0, state := Playing);
    Load(started, s.currentLevel, files)
  }

  /** The player before the collision pass: jump impulse, gravity and
      integration of the position. */
  function Launch(s: Session, jumpHeld: bool): Body {
    var fired := jumpHeld && !s.isJumping;
    var vel := (if fired then -JUMP_FORCE else s.velY) + GRAVITY;
    Body(s.playerY + vel, vel, s.isJumping || fired, s.isAlive, s.state, false)
  }

  /** One physics step: launch, the collision pass over the whole map, the
      airborne check and the camera scroll. */
  function Step(s: Session, jumpHeld: bool): Session {
    var b := Scan(Launch(s, jumpHeld), Cells(s.levelData), s.cameraOffset);
    s.(playerY := b.y, velY := b.vel, isJumping := if b.onGround then b.jumping else true,
       isAlive := b.alive, state := b.state, cameraOffset := s.cameraOffset + SCROLL_SPEED)
  }

  /** One key-down event. */
  function OnKey(s: Session, k: Key, files: LevelFiles): Session {
    match s.state
    case Menu =>
      (match k
       case Digit1 => Reset(s.(currentLevel := FIRST_LEVEL), files)
       case Digit2 => Reset(s, files)
       case Digit3 => Reset(s.(currentLevel := s.currentLevel + 1), files)
       case _ => s)
    case GameOver => if k == LetterR then Reset(s, files) else s
    case Playing => s
  }

  /** The key-down events of one frame, in order. */
  function OnKeys(s: Session, keys: seq<Key>, files: LevelFiles): Session
    decreases |keys|
  {
    if keys == [] then s
    else OnKey(OnKeys(s, keys[..|keys| - 1], files), keys[|keys| - 1], files)
  }

  /** One frame: the key events, then a physics step if the game is being
      played and the player is alive. */
  function Frame(s: Session, input: FrameInput, files: LevelFiles): Session {
    var t := OnKeys(s, input.keys, files);
    if t.state == Playing && t.isAlive then Step(t, input.jumpHeld) else t
  }

  /** A run of frames, in order. */
  function Run(s: Session, frames: seq<FrameInput>, files: LevelFiles): Session
    decreases |frames|
  {
    if frames == [] then s
    else Frame(Run(s, frames[..|frames| - 1], files), frames[|frames| - 1], files)
  }

  // ---------------------------------------------------------------------------
  // Loading and resetting

  /** A missing file empties the map and returns to the menu; everything
      else is left as it was. */
  lemma LoadMissing(s: Session, n: int, files: LevelFiles)
    requires n !in files
    ensures Load(s, n, files) == s.(levelData := [], state := Menu)
  {
  }

  /** A present file replaces the map by the file's tiles whatever the map
      was, keeps the state, and moves the player only to the row of a line
      carrying a marker. */
  lemma {:induction false} LoadPresent(s: Session, n: int, files: LevelFiles)
    requires n in files
    ensures Load(s, n, files).levelData == ParseLevel(files[n])
    ensures Load(s, n, files).state == s.state
    ensures Load(s, n, files).playerY == s.playerY ||
            exists i :: 0 <= i < |files[n]| && HasMarker(files[n][i]) && Load(s, n, files).playerY == i * TILE_SIZE
    ensures Load(s, n, files).(playerY := s.playerY, levelData := s.levelData) == s
  {
    SpawnIsMarkerRow(files[n], s.playerY);
  }

  /** The map is cleared before it is rebuilt, so loading the same level
      twice in a row gives the same session as loading it once. */
  lemma {:induction false} LoadIdempotent(s: Session, n: int, files: LevelFiles)
    ensures Load(Load(s, n, files), n, files) == Load(s, n, files)
  {
    if n in files {
      SpawnIdempotent(files[n], s.playerY);
    }
  }

  /** What a reset leaves: the player at rest and alive, the camera at the
      start, the level number kept, and the game playing the level's map,
      or back in the menu with an empty map when the level file is missing.
      The player starts at the spawn height the level file gives, which is
      the default height or a marker row. */
  lemma {:induction false} ResetOutcome(s: Session, files: LevelFiles)
    ensures Reset(s, files).velY == 0 && !Reset(s, files).isJumping && Reset(s, files).isAlive
    ensures Reset(s, files).cameraOffset == 0 && Reset(s, files).currentLevel == s.currentLevel
    ensures Reset(s, files).state == (if s.currentLevel in files then Playing else Menu)
    ensures Reset(s, files).levelData == (if s.currentLevel in files then ParseLevel(files[s.currentLevel]) else [])
    ensures s.currentLevel !in files ==> Reset(s, files).playerY == START_Y
    ensures s.currentLevel in files ==> Reset(s, files).playerY == SpawnY(files[s.currentLevel], START_Y)
    ensures s.currentLevel in files ==>
              Reset(s, files).playerY == START_Y ||
              exists i :: 0 <= i < |files[s.currentLevel]| && HasMarker(files[s.currentLevel][i]) &&
                Reset(s, files).playerY == i * TILE_SIZE
  {
    if s.currentLevel in files {
      SpawnIsMarkerRow(files[s.currentLevel], START_Y);
    }
  }

  /** A reset forgets everything but the level number. */
  lemma ResetDependsOnlyOnLevel(s: Session, s': Session, files: LevelFiles)
    requires s.currentLevel == s'.currentLevel
    ensures Reset(s, files) == Reset(s', files)
  {
  }

  /** Resetting twice gives the same session as resetting once. */
  lemma ResetIdempotent(s: Session, files: LevelFiles)
    ensures Reset(Reset(s, files), files) == Reset(s, files)
  {
    ResetDependsOnlyOnLevel(Reset(s, files), s, files);
  }

  // ---------------------------------------------------------------------------
  // The physics step

  /** The ground tile in row `r`, column `c` of `level` overlaps the player
      at height `y`. */
  predicate LandsOn(level: seq<seq<Tile>>, r: int, c: int, y: int, cam: int) {
    0 <= r < |level| && 0 <= c < |level[r]| && level[r][c] == Ground &&
    Overlaps(PlayerRect(y), TileRect(r, c, cam))
  }

  /** The danger tile in row `r`, column `c` of `level` overlaps the player
      at height `y`. */
  predicate DangerAt(level: seq<seq<Tile>>, r: int, c: int, y: int, cam: int) {
    0 <= r < |level| && 0 <= c < |level[r]| && level[r][c] == Danger &&
    Overlaps(PlayerRect(y), TileRect(r, c, cam))
  }

  /** Every cell of the map is at a position of the map and holds its tile,
      and every position of the map is a cell at some index. */
  lemma CellIndex(level: seq<seq<Tile>>, r: int, c: int) returns (k: int)
    requires 0 <= r < |level| && 0 <= c < |level[r]|
    ensures 0 <= k < |Cells(level)| && Cells(level)[k] == Cell(r, c, level[r][c])
  {
    CellsOfLevel(level);
    var x := Cell(r, c, level[r][c]);
    assert x in Cells(level);
    k :| 0 <= k < |Cells(level)| && Cells(level)[k] == x;
  }

  /** The first ground tile in visiting order that the player overlaps is
      also the first in row-major order. */
  lemma FirstHitIsFirstInRowMajor(level: seq<seq<Tile>>, y: int, cam: int, i: int)
    requires GroundHit(Cells(level), i, y, cam)
    requires forall k :: 0 <= k < i ==> !GroundHit(Cells(level), k, y, cam)
    ensures forall r2, c2 :: (r2 < Cells(level)[i].row || (r2 == Cells(level)[i].row && c2 < Cells(level)[i].col)) ==>
              !LandsOn(level, r2, c2, y, cam)
  {
    var cells := Cells(level);
    forall r2, c2 | r2 < cells[i].row || (r2 == cells[i].row && c2 < cells[i].col)
      ensures !LandsOn(level, r2, c2, y, cam)
    {
      if LandsOn(level, r2, c2, y, cam) {
        var k := CellIndex(level, r2, c2);
        assert GroundHit(cells, k, y, cam);
        CellsRowMajor(level);
      }
    }
  }

  /** The landing rule of the pass over the map's cells, in grid terms: the
      player lands iff it is falling and some ground tile overlaps it, and
      then rests on the first such tile in row-major order. */
  lemma LandingInGrid(level: seq<seq<Tile>>, b0: Body, cam: int)
    requires !b0.onGround
    ensures var b := Scan(b0, Cells(level), cam);
            b.onGround ==>
              b.vel == 0 && !b.jumping &&
              exists r, c :: LandsOn(level, r, c, b0.y, cam) &&
                (forall r2, c2 :: (r2 < r || (r2 == r && c2 < c)) ==> !LandsOn(level, r2, c2, b0.y, cam)) &&
                b.y == r * TILE_SIZE - PLAYER_HEIGHT
    ensures var b := Scan(b0, Cells(level), cam);
            b.onGround <==> b0.vel > 0 && exists r, c :: LandsOn(level, r, c, b0.y, cam)
    ensures var b := Scan(b0, Cells(level), cam);
            !b.onGround ==> b.y == b0.y && b.vel == b0.vel
  {
    var cells := Cells(level);
    var b := Scan(b0, cells, cam);
    ScanLanding(b0, cells, cam);
    if b.onGround {
      CellsOfLevel(level);
      var i :| GroundHit(cells, i, b0.y, cam) &&
        (forall k :: 0 <= k < i ==> !GroundHit(cells, k, b0.y, cam)) && b.y == RestingY(cells[i]);
      assert cells[i] in cells;
      var r, c := cells[i].row, cells[i].col;
      assert LandsOn(level, r, c, b0.y, cam);
      FirstHitIsFirstInRowMajor(level, b0.y, cam, i);
    } else if b0.vel > 0 {
      forall r, c ensures !LandsOn(level, r, c, b0.y, cam) {
        if LandsOn(level, r, c, b0.y, cam) {
          var k := CellIndex(level, r, c);
          assert GroundHit(cells, k, b0.y, cam);
        }
      }
    }
  }

  /** Landing in a step. The jump impulse fires only when jump is held and
      the player is not already jumping; gravity is added to the velocity and
      the velocity to the position. If the player is then falling onto
      ground, it comes to rest on top of the first overlapping ground tile in
      row-major order, stops, and is no longer jumping; otherwise it keeps
      the new position and velocity and counts as jumping (airborne). */
  lemma StepLanding(s: Session, jumpHeld: bool)
    ensures var v := (if jumpHeld && !s.isJumping then -JUMP_FORCE else s.velY) + GRAVITY;
            var y := s.playerY + v;
            var t := Step(s, jumpHeld);
            (v > 0 && exists r, c :: LandsOn(s.levelData, r, c, y, s.cameraOffset)) ==>
              t.velY == 0 && !t.isJumping &&
              exists r, c :: LandsOn(s.levelData, r, c, y, s.cameraOffset) &&
                (forall r2, c2 :: (r2 < r || (r2 == r && c2 < c)) ==> !LandsOn(s.levelData, r2, c2, y, s.cameraOffset)) &&
                t.playerY == r * TILE_SIZE - PLAYER_HEIGHT
    ensures var v := (if jumpHeld && !s.isJumping then -JUMP_FORCE else s.velY) + GRAVITY;
            var y := s.playerY + v;
            var t := Step(s, jumpHeld);
            !(v > 0 && exists r, c :: LandsOn(s.levelData, r, c, y, s.cameraOffset)) ==>
              t.playerY == y && t.velY == v && t.isJumping
  {
    LandingInGrid(s.levelData, Launch(s, jumpHeld), s.cameraOffset);
  }

  /** Row `r`, column `c` comes before row `r2`, column `c2` in row-major order. */
  predicate RowMajorBefore(r: int, c: int, r2: int, c2: int) {
    r < r2 || (r == r2 && c < c2)
  }

  /** The player, at height `y` with velocity `v` after integration, overlaps
      a danger tile that the collision pass reaches before the player has
      landed on any ground tile, that is, with no ground tile overlapping the
      player earlier in row-major order while it is falling. */
  ghost predicate Killed(level: seq<seq<Tile>>, y: int, v: int, cam: int) {
    exists r, c :: DangerAt(level, r, c, y, cam) &&
                   !(v > 0 && exists r2, c2 :: RowMajorBefore(r2, c2, r, c) && LandsOn(level, r2, c2, y, cam))
  }

  /** Visiting order and row-major order agree. */
  lemma CellOrder(level: seq<seq<Tile>>, j: int, k: int)
    requires 0 <= j < |Cells(level)| && 0 <= k < |Cells(level)|
    ensures j < k <==> Before(Cells(level)[j], Cells(level)[k])
  {
    CellsRowMajor(level);
    if k < j {
      assert Before(Cells(level)[k], Cells(level)[j]);
    }
  }

  /** Landing before the pass reaches a tile, in grid terms. */
  lemma LandedBeforeInGrid(level: seq<seq<Tile>>, b0: Body, cam: int, k: int)
    requires 0 <= k < |Cells(level)|
    ensures LandedBefore(b0, Cells(level), k, cam) <==>
            b0.vel > 0 && exists r2, c2 :: RowMajorBefore(r2, c2, Cells(level)[k].row, Cells(level)[k].col) &&
                                           LandsOn(level, r2, c2, b0.y, cam)
  {
    var cells := Cells(level);
    CellsOfLevel(level);
    if LandedBefore(b0, cells, k, cam) {
      var j :| 0 <= j < k && GroundHit(cells, j, b0.y, cam);
      assert cells[j] in cells;
      CellOrder(level, j, k);
      assert LandsOn(level, cells[j].row, cells[j].col, b0.y, cam);
    }
    if b0.vel > 0 && exists r2, c2 :: RowMajorBefore(r2, c2, cells[k].row, cells[k].col) && LandsOn(level, r2, c2, b0.y, cam) {
      var r2, c2 :| RowMajorBefore(r2, c2, cells[k].row, cells[k].col) && LandsOn(level, r2, c2, b0.y, cam);
      var j := CellIndex(level, r2, c2);
      CellOrder(level, j, k);
      assert GroundHit(cells, j, b0.y, cam);
    }
  }

  /** Once the player has landed, the rest of the pass cannot kill it: at its
      resting height it overlaps only tiles of the row above the landing tile,
      and the pass has visited all of those already. */
  lemma NoDeathAfterLanding(level: seq<seq<Tile>>, b0: Body, cam: int)
    ensures !exists i, k :: b0.vel > 0 && FirstGroundHit(Cells(level), i, b0.y, cam) && i < k &&
                            DangerHit(Cells(level), k, RestingY(Cells(level)[i]), cam)
  {
    var cells := Cells(level);
    if exists i, k :: b0.vel > 0 && FirstGroundHit(cells, i, b0.y, cam) && i < k && DangerHit(cells, k, RestingY(cells[i]), cam) {
      var i, k :| b0.vel > 0 && FirstGroundHit(cells, i, b0.y, cam) && i < k && DangerHit(cells, k, RestingY(cells[i]), cam);
      RestingRow(cells[i], cells[k], cam);
      CellOrder(level, k, i);
      assert false;
    }
  }

  /** The death condition of the pass over the map's cells, in grid terms. */
  lemma StruckInGrid(level: seq<seq<Tile>>, b0: Body, cam: int)
    ensures Struck(b0, Cells(level), cam) <==> Killed(level, b0.y, b0.vel, cam)
  {
    var cells := Cells(level);
    CellsOfLevel(level);
    NoDeathAfterLanding(level, b0, cam);
    if exists k :: DangerHit(cells, k, b0.y, cam) && !LandedBefore(b0, cells, k, cam) {
      var k :| DangerHit(cells, k, b0.y, cam) && !LandedBefore(b0, cells, k, cam);
      assert cells[k] in cells;
      LandedBeforeInGrid(level, b0, cam, k);
      assert DangerAt(level, cells[k].row, cells[k].col, b0.y, cam);
    }
    if Killed(level, b0.y, b0.vel, cam) {
      var r, c :| DangerAt(level, r, c, b0.y, cam) &&
                  !(b0.vel > 0 && exists r2, c2 :: RowMajorBefore(r2, c2, r, c) && LandsOn(level, r2, c2, b0.y, cam));
      var k := CellIndex(level, r, c);
      LandedBeforeInGrid(level, b0, cam, k);
      assert DangerHit(cells, k, b0.y, cam);
    }
  }

  /** Dying in a step. Danger tiles act whatever the player's velocity: the
      player dies and the game is over exactly when, after the jump impulse,
      gravity and integration, some danger tile overlaps it at the height
      the pass tests that tile at (`Killed`); otherwise the step leaves the
      player's life and the game state alone. */
  lemma StepDanger(s: Session, jumpHeld: bool)
    ensures var t := Step(s, jumpHeld);
            (t.isAlive == s.isAlive && t.state == s.state) || (!t.isAlive && t.state == GameOver)
    ensures var v := (if jumpHeld && !s.isJumping then -JUMP_FORCE else s.velY) + GRAVITY;
            var y := s.playerY + v;
            var t := Step(s, jumpHeld);
            t.isAlive == (s.isAlive && !Killed(s.levelData, y, v, s.cameraOffset)) &&
            t.state == if Killed(s.levelData, y, v, s.cameraOffset) then GameOver else s.state
  {
    var b0 := Launch(s, jumpHeld);
    ScanDanger(b0, Cells(s.levelData), s.cameraOffset);
    StruckInGrid(s.levelData, b0, s.cameraOffset);
  }

  /** A danger tile below and to the right of a ground tile does not kill a
      player that lands on the ground tile, although it overlaps the player
      after gravity: moving from 55 at velocity 4 (5 after gravity) to height
      60, the player overlaps the ground
      tile in row 1, column 5 and the danger tile in row 2, column 6; it
      comes to rest at height 0 on the ground tile and survives. */
  lemma ExampleLandingAboveDanger()
    ensures var level := [[], [Empty, Empty, Empty, Empty, Empty, Ground], [Empty, Empty, Empty, Empty, Empty, Empty, Danger]];
            var s := INITIAL.(playerY := 55, velY := 4, isJumping := true, state := Playing, levelData := level);
            var t := Step(s, false);
            DangerAt(level, 2, 6, 60, 0) && t.playerY == 0 && t.isAlive && t.state == Playing && !t.isJumping
  {
    var level := [[], [Empty, Empty, Empty, Empty, Empty, Ground], [Empty, Empty, Empty, Empty, Empty, Empty, Danger]];
    var s := INITIAL.(playerY := 55, velY := 4, isJumping := true, state := Playing, levelData := level);
    StepLanding(s, false);
    StepDanger(s, false);
    assert LandsOn(level, 1, 5, 60, 0);
    assert forall r, c :: DangerAt(level, r, c, 60, 0) ==> r == 2 && c == 6;
  }

  /** Ground tiles stop only a falling player: at the top of a jump, with
      velocity 0 after gravity, the player at height 60 overlaps the ground
      tile in row 1, column 5 and the danger tile in row 2, column 6; the
      ground tile does not move it and the danger tile kills it. */
  lemma ExampleDeathAtApex()
    ensures var level := [[], [Empty, Empty, Empty, Empty, Empty, Ground], [Empty, Empty, Empty, Empty, Empty, Empty, Danger]];
            var s := INITIAL.(playerY := 60, velY := -1, isJumping := true, state := Playing, levelData := level);
            var t := Step(s, false);
            LandsOn(level, 1, 5, 60, 0) && DangerAt(level, 2, 6, 60, 0) &&
            t.playerY == 60 && !t.isAlive && t.state == GameOver
  {
    var level := [[], [Empty, Empty, Empty, Empty, Empty, Ground], [Empty, Empty, Empty, Empty, Empty, Empty, Danger]];
    var s := INITIAL.(playerY := 60, velY := -1, isJumping := true, state := Playing, levelData := level);
    StepLanding(s, false);
    StepDanger(s, false);
    assert DangerAt(level, 2, 6, 60, 0);
  }

  /** A step scrolls the camera by exactly the scroll speed, also in the
      step in which the player dies, and never changes the map or the level
      number. */
  lemma StepScrolls(s: Session, jumpHeld: bool)
    ensures Step(s, jumpHeld).cameraOffset == s.cameraOffset + SCROLL_SPEED
    ensures Step(s, jumpHeld).levelData == s.levelData
    ensures Step(s, jumpHeld).currentLevel == s.currentLevel
  {
  }

  /** A player falling at velocity 4 from height -30 (so at -25 after
      gravity) onto the ground row of a map lands on it at height -50 with
      velocity 0 and is no longer jumping. */
  lemma ExampleLanding()
    ensures var level := [[Ground, Ground, Ground, Ground, Ground, Ground, Ground]];
            var s := INITIAL.(playerY := -30, velY := 4, isJumping := true, state := Playing, levelData := level);
            var t := Step(s, false);
            t.playerY == -50 && t.velY == 0 && !t.isJumping && t.isAlive && t.cameraOffset == 5
  {
    var level := [[Ground, Ground, Ground, Ground, Ground, Ground, Ground]];
    var s := INITIAL.(playerY := -30, velY := 4, isJumping := true, state := Playing, levelData := level);
    StepLanding(s, false);
    StepDanger(s, false);
    assert LandsOn(level, 0, 5, -25, 0);
  }

  // ---------------------------------------------------------------------------
  // Key events, frames and runs

  /** What one key-down event does. Keys 1, 2 and 3 in the menu and r in
      the game-over screen reset the game, to level 1, to the current level
      and to the next level, and r to the current level, with the player at
      that level's spawn height; every other event,
      and every event while playing, changes nothing. */
  lemma {:induction false} OnKeyOutcome(s: Session, k: Key, files: LevelFiles)
    ensures (s.state == Menu && (k == Digit1 || k == Digit2 || k == Digit3)) || (s.state == GameOver && k == LetterR) ==>
              var level := if s.state == Menu && k == Digit1 then FIRST_LEVEL
                           else if s.state == Menu && k == Digit3 then s.currentLevel + 1
                           else s.currentLevel;
              var t := OnKey(s, k, files);
              && t.currentLevel == level && t.velY == 0 && !t.isJumping && t.isAlive && t.cameraOffset == 0
              && t.state == (if level in files then Playing else Menu)
              && t.levelData == (if level in files then ParseLevel(files[level]) else [])
              && t.playerY == (if level in files then SpawnY(files[level], START_Y) else START_Y)
              && (t.playerY == START_Y ||
                  exists i :: 0 <= i < |files[level]| && HasMarker(files[level][i]) && t.playerY == i * TILE_SIZE)
    ensures !((s.state == Menu && (k == Digit1 || k == Digit2 || k == Digit3)) || (s.state == GameOver && k == LetterR)) ==>
              OnKey(s, k, files) == s
  {
    match s.state
    case Menu =>
      match k {
        case Digit1 => ResetOutcome(s.(currentLevel := FIRST_LEVEL), files);
        case Digit2 => ResetOutcome(s, files);
        case Digit3 => ResetOutcome(s.(currentLevel := s.currentLevel + 1), files);
        case _ =>
      }
    case GameOver => ResetOutcome(s, files);
    case Playing =>
  }

  /** Starting a new game from the menu forgets everything about the
      previous game. */
  lemma NewGameForgetsHistory(s: Session, s': Session, files: LevelFiles)
    requires s.state == Menu && s'.state == Menu
    ensures OnKey(s, Digit1, files) == OnKey(s', Digit1, files)
  {
    ResetDependsOnlyOnLevel(s.(currentLevel := FIRST_LEVEL), s'.(currentLevel := FIRST_LEVEL), files);
  }

  /** The physics step runs in a frame exactly when, after the key events,
      the game is being played and the player is alive. */
  lemma FrameRunsPhysicsOnlyWhenPlaying(s: Session, input: FrameInput, files: LevelFiles)
    ensures var t := OnKeys(s, input.keys, files);
            !(t.state == Playing && t.isAlive) ==> Frame(s, input, files) == t
    ensures var t := OnKeys(s, input.keys, files);
            t.state == Playing && t.isAlive ==>
              Frame(s, input, files).cameraOffset == t.cameraOffset + SCROLL_SPEED
  {
  }

  /** The invariant every reachable session keeps: the level number is
      at least 1, the player is alive exactly when the game is not over,
      and the camera offset is a nonnegative multiple of the scroll speed.
      In particular a playing session always has a living player. */
  ghost predicate Consistent(s: Session) {
    && s.currentLevel >= FIRST_LEVEL
    && (s.isAlive <==> s.state != GameOver)
    && s.cameraOffset >= 0 && s.cameraOffset % SCROLL_SPEED == 0
  }

  lemma InitialConsistent()
    ensures Consistent(INITIAL)
  {
  }

  lemma {:induction false} OnKeysConsistent(s: Session, keys: seq<Key>, files: LevelFiles)
    requires Consistent(s)
    ensures Consistent(OnKeys(s, keys, files))
    decreases |keys|
  {
    if keys != [] {
      var t := OnKeys(s, keys[..|keys| - 1], files);
      OnKeysConsistent(s, keys[..|keys| - 1], files);
      OnKeyOutcome(t, keys[|keys| - 1], files);
    }
  }

  lemma FrameConsistent(s: Session, input: FrameInput, files: LevelFiles)
    requires Consistent(s)
    ensures Consistent(Frame(s, input, files))
  {
    var t := OnKeys(s, input.keys, files);
    OnKeysConsistent(s, input.keys, files);
    if t.state == Playing && t.isAlive {
      StepDanger(t, input.jumpHeld);
    }
  }

  lemma {:induction false} RunConsistent(s: Session, frames: seq<FrameInput>, files: LevelFiles)
    requires Consistent(s)
    ensures Consistent(Run(s, frames, files))
    decreases |frames|
  {
    if frames != [] {
      RunConsistent(s, frames[..|frames| - 1], files);
      FrameConsistent(Run(s, frames[..|frames| - 1], files), frames[|frames| - 1], files);
    }
  }

  /** Over frames without key events, starting in play, the camera never
      moves back and moves at most the scroll speed per frame; while the
      player stays alive the game stays in play and the camera has moved by
      exactly the scroll speed per frame; once dead, the game is over. The
      map and the level number stay as they were. */
  lemma {:induction false} RunScrolls(s: Session, frames: seq<FrameInput>, files: LevelFiles)
    requires s.state == Playing && s.isAlive
    requires forall i :: 0 <= i < |frames| ==> frames[i].keys == []
    ensures s.cameraOffset <= Run(s, frames, files).cameraOffset <= s.cameraOffset + SCROLL_SPEED * |frames|
    ensures Run(s, frames, files).isAlive ==>
              Run(s, frames, files).state == Playing &&
              Run(s, frames, files).cameraOffset == s.cameraOffset + SCROLL_SPEED * |frames|
    ensures !Run(s, frames, files).isAlive ==> Run(s, frames, files).state == GameOver
    ensures Run(s, frames, files).levelData == s.levelData
    ensures Run(s, frames, files).currentLevel == s.currentLevel
    decreases |frames|
  {
    if frames != [] {
      var n := |frames| - 1;
      assert forall i :: 0 <= i < n ==> frames[..n][i] == frames[i];
      RunScrolls(s, frames[..n], files);
      var p := Run(s, frames[..n], files);
      assert OnKeys(p, frames[n].keys, files) == p;
      if p.state == Playing && p.isAlive {
        StepDanger(p, frames[n].jumpHeld);
      }
    }
  }
}
