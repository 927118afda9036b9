/** The game as the program runs it: one object whose fields are updated
    in place by loading, resetting, the physics step, key events and the
    frame loop. Each method is proved to perform the transition of the same
    name in module Game. */
module GameLoop {
  import opened Settings
  import opened Level
  import opened Physics
  import Game

  class GameSession {
    var playerY: int
    var velY: int
    var isJumping: bool
    var isAlive: bool
    var cameraOffset: int
    var state: GameState
    var currentLevel: int
    var levelData: seq<seq<Tile>>

    /** The session's fields as a value. */
    function Snapshot(): Game.Session
      reads this
    {
      Game.Session(playerY, velY, isJumping, isAlive, cameraOffset, state, currentLevel, levelData)
    }

    /** The values the fields have when the program starts. */
    constructor ()
      ensures Snapshot() == Game.INITIAL
      ensures Game.Consistent(Snapshot())
    {
      playerY := START_Y;
      velY := 0;
      isJumping := false;
      isAlive := true;
      cameraOffset := 0;
      levelData := [];
      currentLevel := FIRST_LEVEL;
      state := Menu;
    }

    /** Clears the map, then reads level `levelNumber` line by line and
        character by character; returns to the menu when its file is missing. */
    method LoadLevel(levelNumber: int, files: Game.LevelFiles)
      modifies this
      ensures Snapshot() == Game.Load(old(Snapshot()), levelNumber, files)
      ensures levelNumber !in files ==> levelData == [] && state == Menu
      ensures levelNumber in files ==> |levelData| == |files[levelNumber]|
    {
      levelData := [];
      if levelNumber !in files {
        state := Menu;
        return;
      }
      var lines := files[levelNumber];
      var y: nat := 0;
      while y < |lines|
        invariant y <= |lines|
        invariant levelData == ParseLevel(lines[..y])
        invariant playerY == SpawnY(lines[..y], old(playerY))
        invariant velY == old(velY) && isJumping == old(isJumping) && isAlive == old(isAlive)
        invariant cameraOffset == old(cameraOffset) && state == old(state) && currentLevel == old(currentLevel)
      {
        var line := Strip(lines[y]);
        var row := ReadLine(line, y);
        ParseLevelSnoc(lines, y);
        SpawnSnoc(lines, y, old(playerY));
        levelData := levelData + [row];
        y := y + 1;
      }
      assert lines[..y] == lines;
    }

    /** The character loop over one stripped line, the `y`-th of the file:
        returns the line's tiles and moves the spawn point to the line's top
        when a marker is in it. */
    method ReadLine(line: string, y: nat) returns (row: seq<Tile>)
      modifies this
      ensures row == ParseRow(line)
      ensures playerY == if 'p' in line then y * TILE_SIZE else old(playerY)
      ensures levelData == old(levelData) && velY == old(velY) && isJumping == old(isJumping) && isAlive == old(isAlive)
      ensures cameraOffset == old(cameraOffset) && state == old(state) && currentLevel == old(currentLevel)
    {
      row := [];
      var x := 0;
      while x < |line|
        invariant x <= |line|
        invariant row == ParseRow(line[..x])
        invariant playerY == if 'p' in line[..x] then y * TILE_SIZE else old(playerY)
        invariant levelData == old(levelData) && velY == old(velY) && isJumping == old(isJumping) && isAlive == old(isAlive)
        invariant cameraOffset == old(cameraOffset) && state == old(state) && currentLevel == old(currentLevel)
      {
        var ch := line[x];
        if ch == '#' {
          row := row + [Ground];
        } else if ch == 'D' {
          row := row + [Danger];
        } else if ch == 'p' {
          playerY := y * TILE_SIZE;
          row := row + [Empty];
        } else {
          row := row + [Empty];
        }
        ParseRowSnoc(line, x);
        assert line[..x + 1] == line[..x] + [ch];
        x := x + 1;
      }
      assert line[..x] == line;
    }

    /** Puts the player back at the start, at rest and alive, rewinds the
        camera, enters play and loads the current level. */
    method Reset(files: Game.LevelFiles)
      modifies this
      ensures Snapshot() == Game.Reset(old(Snapshot()), files)
      ensures velY == 0 && !isJumping && isAlive && cameraOffset == 0
      ensures currentLevel == old(currentLevel)
      ensures state == (if currentLevel in files then Playing else Menu)
    {
      playerY := START_Y;
      velY := 0;
      isJumping := false;
      isAlive := true;
      cameraOffset := 0;
      state := Playing;
      LoadLevel(currentLevel, files);
    }

    /** One physics step: jump impulse, gravity, integration, the collision
        pass over every tile in row-major order, the airborne check and the
        camera scroll. */
    method PhysicsStep(jumpHeld: bool)
      modifies this
      ensures Snapshot() == Game.Step(old(Snapshot()), jumpHeld)
      ensures cameraOffset == old(cameraOffset) + SCROLL_SPEED
      ensures levelData == old(levelData) && currentLevel == old(currentLevel)
    {
      if jumpHeld && !isJumping {
        velY := -JUMP_FORCE;
        isJumping := true;
      }
      velY := velY + GRAVITY;
      playerY := playerY + velY;

      ghost var b0 := Body(playerY, velY, isJumping, isAlive, state, false);
      assert b0 == Game.Launch(old(Snapshot()), jumpHeld);
      var onGround := false;
      var r: nat := 0;
      while r < |levelData|
        invariant r <= |levelData|
        invariant Body(playerY, velY, isJumping, isAlive, state, onGround) == Scan(b0, Cells(levelData[..r]), cameraOffset)
        invariant cameraOffset == old(cameraOffset) && levelData == old(levelData) && currentLevel == old(currentLevel)
      {
        onGround := CollideRow(r, levelData[r], onGround);
        ScanAppend(b0, Cells(levelData[..r]), RowCells(levelData[r], r), cameraOffset);
        CellsSnoc(levelData, r);
        r := r + 1;
      }
      assert levelData[..r] == levelData;

      if !onGround {
        isJumping := true;
      }
      cameraOffset := cameraOffset + SCROLL_SPEED;
    }

    /** The collision pass over row `r`, left to right. Returns the
        grounded flag. */
    method CollideRow(r: nat, row: seq<Tile>, onGround: bool) returns (grounded: bool)
      modifies this
      ensures Body(playerY, velY, isJumping, isAlive, state, grounded) ==
              Scan(old(Body(playerY, velY, isJumping, isAlive, state, onGround)), RowCells(row, r), cameraOffset)
      ensures cameraOffset == old(cameraOffset) && levelData == old(levelData) && currentLevel == old(currentLevel)
    {
      ghost var b0 := Body(playerY, velY, isJumping, isAlive, state, onGround);
      grounded := onGround;
      var c: nat := 0;
      while c < |row|
        invariant c <= |row|
        invariant Body(playerY, velY, isJumping, isAlive, state, grounded) == Scan(b0, RowCells(row, r)[..c], cameraOffset)
        invariant cameraOffset == old(cameraOffset) && levelData == old(levelData) && currentLevel == old(currentLevel)
      {
        grounded := Collide(Cell(r, c, row[c]), grounded);
        RowCellsSnoc(row, r, c);
        ScanSnoc(b0, RowCells(row, r)[..c], Cell(r, c, row[c]), cameraOffset);
        c := c + 1;
      }
      assert RowCells(row, r)[..c] == RowCells(row, r);
    }

    /** The effect of one tile of the collision pass: a ground tile the
        player overlaps while falling puts the player on top of it, a danger
        tile the player overlaps kills it. Returns the grounded flag. */
    method Collide(x: Cell, onGround: bool) returns (grounded: bool)
      modifies this
      ensures Body(playerY, velY, isJumping, isAlive, state, grounded) ==
              TileStep(old(Body(playerY, velY, isJumping, isAlive, state, onGround)), x, cameraOffset)
      ensures cameraOffset == old(cameraOffset) && levelData == old(levelData) && currentLevel == old(currentLevel)
    {
      grounded := onGround;
      var tileRect := Rect(x.col * TILE_SIZE - cameraOffset, x.row * TILE_SIZE, TILE_SIZE, TILE_SIZE);
      var playerRect := Rect(PLAYER_X, playerY, PLAYER_WIDTH, PLAYER_HEIGHT);
      if x.tile == Ground && Overlaps(playerRect, tileRect) {
        if velY > 0 {
          playerY := tileRect.y - PLAYER_HEIGHT;
          velY := 0;
          isJumping := false;
          grounded := true;
        }
      } else if x.tile == Danger && Overlaps(playerRect, tileRect) {
        isAlive := false;
        state := GameOver;
      }
    }

    /** One key-down event: in the menu, 1 starts a new game at level 1, 2
        restarts the current level and 3 goes on to the next level; in the
        game-over screen, r restarts the current level. */
    method HandleKey(k: Game.Key, files: Game.LevelFiles)
      modifies this
      ensures Snapshot() == Game.OnKey(old(Snapshot()), k, files)
    {
      if state == Menu {
        if k == Game.Digit1 {
          currentLevel := FIRST_LEVEL;
          Reset(files);
        } else if k == Game.Digit2 {
          Reset(files);
        } else if k == Game.Digit3 {
          currentLevel := currentLevel + 1;
          Reset(files);
        }
      } else if state == GameOver {
        if k == Game.LetterR {
          Reset(files);
        }
      }
    }

    /** The key-down events of one frame, in order. */
    method HandleEvents(keys: seq<Game.Key>, files: Game.LevelFiles)
      modifies this
      ensures Snapshot() == Game.OnKeys(old(Snapshot()), keys, files)
    {
      for i := 0 to |keys|
        invariant Snapshot() == Game.OnKeys(old(Snapshot()), keys[..i], files)
      {
        assert keys[..i + 1][..i] == keys[..i];
        HandleKey(keys[i], files);
      }
      assert keys[..|keys|] == keys;
    }

    /** One frame: the key events, then the physics step when the game is
        being played and the player is alive. */
    method Frame(input: Game.FrameInput, files: Game.LevelFiles)
      modifies this
      ensures Snapshot() == Game.Frame(old(Snapshot()), input, files)
      ensures Game.Consistent(old(Snapshot())) ==> Game.Consistent(Snapshot())
    {
      HandleEvents(input.keys, files);
      if state == Playing {
        if isAlive {
          PhysicsStep(input.jumpHeld);
        }
      }
      if Game.Consistent(old(Snapshot())) {
        Game.FrameConsistent(old(Snapshot()), input, files);
      }
    }

    /** The frame loop, one iteration per frame. */
    method Run(frames: seq<Game.FrameInput>, files: Game.LevelFiles)
      modifies this
      ensures Snapshot() == Game.Run(old(Snapshot()), frames, files)
      ensures Game.Consistent(old(Snapshot())) ==> Game.Consistent(Snapshot())
    {
      var i := 0;
      while i < |frames|
        invariant i <= |frames|
        invariant Snapshot() == Game.Run(old(Snapshot()), frames[..i], files)
      {
        assert frames[..i + 1][..i] == frames[..i];
        Frame(frames[i], files);
        i := i + 1;
      }
      assert frames[..i] == frames;
      if Game.Consistent(old(Snapshot())) {
        Game.RunConsistent(old(Snapshot()), frames, files);
      }
    }
  }
}
