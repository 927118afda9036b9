/** One collision pass of the physics step: every tile of the map is
    visited in row-major order and tested against the player's rectangle,
    which is rebuilt from the player's current position for each tile. */
module Physics {
  import opened Settings
  import opened Level

  /** An axis-aligned rectangle: left edge, top edge, width, height. */
  datatype Rect = Rect(x: int, y: int, w: int, h: int)

  /** Strict overlap on both axes, as pygame's `Rect.colliderect` decides it
      for rectangles of positive size; rectangles that only share an edge do
      not overlap. */
  predicate Overlaps(a: Rect, b: Rect) {
    a.x < b.x + b.w && b.x < a.x + a.w && a.y < b.y + b.h && b.y < a.y + a.h
  }

  /** The player's rectangle when its top edge is at `y`. */
  function PlayerRect(y: int): Rect {
    Rect(PLAYER_X, y, PLAYER_WIDTH, PLAYER_HEIGHT)
  }

  /** The screen rectangle of the tile in row `row`, column `col`, when the
      camera has scrolled `cam` to the right. */
  function TileRect(row: int, col: int, cam: int): Rect {
    Rect(col * TILE_SIZE - cam, row * TILE_SIZE, TILE_SIZE, TILE_SIZE)
  }

  /** One tile of the map with its position. */
  datatype Cell = Cell(row: nat, col: nat, tile: Tile)

  /** The tiles of one row, left to right. */
  function RowCells(tiles: seq<Tile>, r: nat): seq<Cell> {
    seq(|tiles|, c requires 0 <= c < |tiles| => Cell(r, c, tiles[c]))
  }

  /** The tiles of a map in the order the collision pass visits them:
      row by row from the top, each row from the left. */
  function Cells(level: seq<seq<Tile>>): seq<Cell>
    decreases |level|
  {
    if level == [] then []
    else Cells(level[..|level| - 1]) + RowCells(level[|level| - 1], |level| - 1)
  }

  /** Row-major order on positions. */
  predicate Before(a: Cell, b: Cell) {
    a.row < b.row || (a.row == b.row && a.col < b.col)
  }

  /** The pass visits exactly the tiles of the map. */
  lemma {:induction false} CellsOfLevel(level: seq<seq<Tile>>)
    ensures forall x :: x in Cells(level) ==>
              x.row < |level| && x.col < |level[x.row]| && level[x.row][x.col] == x.tile
    ensures forall r, c :: 0 <= r < |level| && 0 <= c < |level[r]| ==> Cell(r, c, level[r][c]) in Cells(level)
    decreases |level|
  {
    if level != [] {
      var n := |level| - 1;
      CellsOfLevel(level[..n]);
      assert forall r :: 0 <= r < n ==> level[..n][r] == level[r];
      var row := RowCells(level[n], n);
      forall r, c | 0 <= r < |level| && 0 <= c < |level[r]|
        ensures Cell(r, c, level[r][c]) in Cells(level)
      {
        if r == n {
          assert row[c] == Cell(r, c, level[r][c]);
        }
      }
    }
  }

  /** The pass visits the tiles in row-major order, each once. */
  lemma {:induction false} CellsRowMajor(level: seq<seq<Tile>>)
    ensures forall i, j :: 0 <= i < j < |Cells(level)| ==> Before(Cells(level)[i], Cells(level)[j])
    decreases |level|
  {
    if level != [] {
      var n := |level| - 1;
      CellsRowMajor(level[..n]);
      CellsOfLevel(level[..n]);
      var front := Cells(level[..n]);
      var row := RowCells(level[n], n);
      assert Cells(level) == front + row;
      forall i, j | 0 <= i < j < |front + row|
        ensures Before((front + row)[i], (front + row)[j])
      {
        if j >= |front| && i < |front| {
          assert front[i] in front;
        }
      }
    }
  }

  /** Whether the player with top edge `y` overlaps the tile `x`. */
  predicate Touches(y: int, x: Cell, cam: int) {
    Overlaps(PlayerRect(y), TileRect(x.row, x.col, cam))
  }

  /** The player's state as the collision pass updates it, with the flag
      that records whether it landed on ground during the pass. */
  datatype Body = Body(y: int, vel: int, jumping: bool, alive: bool, state: GameState, onGround: bool)

  /** The player's top edge when it rests on the tile `x`. */
  function RestingY(x: Cell): int {
    x.row * TILE_SIZE - PLAYER_HEIGHT
  }

  /** The effect of one tile. A ground tile the player overlaps while
      falling puts the player on top of it and stops the fall; a danger
      tile the player overlaps kills it. */
  function TileStep(b: Body, x: Cell, cam: int): Body {
    var tileRect := TileRect(x.row, x.col, cam);
    var playerRect := PlayerRect(b.y);
    if x.tile == Ground && Overlaps(playerRect, tileRect) then
      if b.vel > 0 then b.(y := tileRect.y - PLAYER_HEIGHT, vel := 0, jumping := false, onGround := true)
      else b
    else if x.tile == Danger && Overlaps(playerRect, tileRect) then
      b.(alive := false, state := GameOver)
    else b
  }

  /** The effect of the tiles `cells`, visited in order. */
  function Scan(b: Body, cells: seq<Cell>, cam: int): Body
    decreases |cells|
  {
    if cells == [] then b
    else TileStep(Scan(b, cells[..|cells| - 1], cam), cells[|cells| - 1], cam)
  }

  /** Visiting one more tile applies its effect. */
  lemma ScanSnoc(b: Body, cells: seq<Cell>, x: Cell, cam: int)
    ensures Scan(b, cells + [x], cam) == TileStep(Scan(b, cells, cam), x, cam)
  {
    assert (cells + [x])[..|cells|] == cells;
  }

  /** Visiting `xs` and then `ys` is visiting `xs + ys`. */
  lemma {:induction false} ScanAppend(b: Body, xs: seq<Cell>, ys: seq<Cell>, cam: int)
    ensures Scan(b, xs + ys, cam) == Scan(Scan(b, xs, cam), ys, cam)
    decreases |ys|
  {
    if ys != [] {
      var n := |ys| - 1;
      assert (xs + ys)[..|xs + ys| - 1] == xs + ys[..n];
      ScanAppend(b, xs, ys[..n], cam);
    } else {
      assert xs + ys == xs;
    }
  }

  /** Visiting one more tile of a row extends the visited part of the row. */
  lemma RowCellsSnoc(tiles: seq<Tile>, r: nat, c: nat)
    requires c < |tiles|
    ensures RowCells(tiles, r)[..c + 1] == RowCells(tiles, r)[..c] + [Cell(r, c, tiles[c])]
  {
  }

  /** Finishing a row adds its tiles to the visited ones. */
  lemma CellsSnoc(level: seq<seq<Tile>>, r: nat)
    requires r < |level|
    ensures Cells(level[..r + 1]) == Cells(level[..r]) + RowCells(level[r], r)
  {
    assert level[..r + 1][..r] == level[..r];
    assert level[..r + 1][r] == level[r];
  }

  /** `cells[i]` is a ground tile the player overlaps at height `y`. */
  predicate GroundHit(cells: seq<Cell>, i: int, y: int, cam: int) {
    0 <= i < |cells| && cells[i].tile == Ground && Touches(y, cells[i], cam)
  }

  /** Landing. The pass moves the player at most once: if it falls onto
      ground, it comes to rest on the FIRST ground tile in visiting order
      that overlaps its position after integration, with its bottom edge on
      that tile's top edge; falling is stopped and the jump is over. It lands
      exactly when it was falling and some ground tile overlaps it; when it
      does not land, its position, velocity and jumping flag are untouched. */
  lemma {:induction false} ScanLanding(b0: Body, cells: seq<Cell>, cam: int)
    requires !b0.onGround
    ensures !Scan(b0, cells, cam).onGround ==>
              Scan(b0, cells, cam).y == b0.y && Scan(b0, cells, cam).vel == b0.vel &&
              Scan(b0, cells, cam).jumping == b0.jumping
    ensures Scan(b0, cells, cam).onGround ==>
              b0.vel > 0 && Scan(b0, cells, cam).vel == 0 && !Scan(b0, cells, cam).jumping &&
              exists i :: GroundHit(cells, i, b0.y, cam) &&
                (forall k :: 0 <= k < i ==> !GroundHit(cells, k, b0.y, cam)) &&
                Scan(b0, cells, cam).y == RestingY(cells[i]) &&
                Scan(b0, cells, cam).y + PLAYER_HEIGHT == cells[i].row * TILE_SIZE
    ensures Scan(b0, cells, cam).onGround <==> b0.vel > 0 && exists i :: GroundHit(cells, i, b0.y, cam)
    decreases |cells|
  {
    if cells != [] {
      var n := |cells| - 1;
      var front := cells[..n];
      ScanLanding(b0, front, cam);
      var p := Scan(b0, front, cam);
      assert forall k :: 0 <= k < n ==> GroundHit(front, k, b0.y, cam) == GroundHit(cells, k, b0.y, cam);
      var b := Scan(b0, cells, cam);
      if p.onGround {
        var i :| GroundHit(front, i, b0.y, cam) &&
          (forall k :: 0 <= k < i ==> !GroundHit(front, k, b0.y, cam)) && p.y == RestingY(front[i]) &&
          p.y + PLAYER_HEIGHT == front[i].row * TILE_SIZE;
        assert GroundHit(cells, i, b0.y, cam);
      } else if b.onGround {
        assert GroundHit(cells, n, b0.y, cam);
        assert forall k :: 0 <= k < n ==> !GroundHit(cells, k, b0.y, cam);
      } else if b0.vel > 0 {
        assert !GroundHit(cells, n, b0.y, cam);
      }
    }
  }

  /** `cells[i]` is the first ground tile, in visiting order, that the player
      overlaps at height `y`. */
  predicate FirstGroundHit(cells: seq<Cell>, i: int, y: int, cam: int) {
    GroundHit(cells, i, y, cam) && forall j :: 0 <= j < i ==> !GroundHit(cells, j, y, cam)
  }

  /** Starting from `b0`, the player has landed before the pass reaches
      `cells[k]` (it lands at the first ground tile overlapping it after
      integration, if it is falling). */
  predicate LandedBefore(b0: Body, cells: seq<Cell>, k: int, cam: int) {
    b0.vel > 0 && exists j :: 0 <= j < k && GroundHit(cells, j, b0.y, cam)
  }

  /** `cells[k]` is a danger tile the player overlaps at height `y`. */
  predicate DangerHit(cells: seq<Cell>, k: int, y: int, cam: int) {
    0 <= k < |cells| && cells[k].tile == Danger && Touches(y, cells[k], cam)
  }

  /** Some danger tile overlaps the player at the height the pass tests it
      at: the height after integration for every tile the pass reaches
      before the player lands, the resting height on the first landing tile
      for every tile after it. */
  ghost predicate Struck(b0: Body, cells: seq<Cell>, cam: int) {
    || (exists k :: DangerHit(cells, k, b0.y, cam) && !LandedBefore(b0, cells, k, cam))
    || (exists i, k :: b0.vel > 0 && FirstGroundHit(cells, i, b0.y, cam) && i < k &&
                       DangerHit(cells, k, RestingY(cells[i]), cam))
  }

  /** A player resting on a tile overlaps only tiles of the row above it. */
  lemma RestingRow(x: Cell, z: Cell, cam: int)
    requires Touches(RestingY(x), z, cam)
    ensures z.row + 1 == x.row
  {
  }

  /** Extending the tiles by one adds exactly whether the new last tile is a
      danger tile overlapping the player at the height it is tested at. */
  lemma StruckSnoc(b0: Body, cells: seq<Cell>, cam: int, y: int)
    requires cells != []
    requires !LandedBefore(b0, cells, |cells| - 1, cam) ==> y == b0.y
    requires LandedBefore(b0, cells, |cells| - 1, cam) ==>
               exists i :: FirstGroundHit(cells, i, b0.y, cam) && i < |cells| - 1 && y == RestingY(cells[i])
    ensures Struck(b0, cells, cam) <==> Struck(b0, cells[..|cells| - 1], cam) || DangerHit(cells, |cells| - 1, y, cam)
  {
    var n := |cells| - 1;
    var front := cells[..n];
    assert forall k :: 0 <= k < n ==> front[k] == cells[k];
    assert forall k, y' :: 0 <= k < n ==> (DangerHit(front, k, y', cam) <==> DangerHit(cells, k, y', cam));
    assert forall k, y' :: 0 <= k < n ==> (GroundHit(front, k, y', cam) <==> GroundHit(cells, k, y', cam));
    assert forall k :: 0 <= k <= n ==> (LandedBefore(b0, front, k, cam) <==> LandedBefore(b0, cells, k, cam));
    assert forall i :: 0 <= i < n ==> (FirstGroundHit(front, i, b0.y, cam) <==> FirstGroundHit(cells, i, b0.y, cam));
    if LandedBefore(b0, cells, n, cam) {
      var i0 :| FirstGroundHit(cells, i0, b0.y, cam) && i0 < n && y == RestingY(cells[i0]);
      assert forall i :: FirstGroundHit(cells, i, b0.y, cam) ==> i == i0;
    } else {
      assert forall i :: b0.vel > 0 && FirstGroundHit(cells, i, b0.y, cam) && i < n ==> LandedBefore(b0, cells, n, cam);
    }
  }

  /** Dying. A danger tile kills the player, whichever way it moves, and
      sets the game-over state, exactly when it overlaps the player at the
      height the pass tests it at; nothing else changes either. A danger
      tile is thus tested at the height after integration while the player
      has not landed, and at the resting height once it has. */
  lemma {:induction false} ScanDanger(b0: Body, cells: seq<Cell>, cam: int)
    requires !b0.onGround
    ensures Scan(b0, cells, cam).alive == (b0.alive && !Struck(b0, cells, cam))
    ensures Scan(b0, cells, cam).state == if Struck(b0, cells, cam) then GameOver else b0.state
    ensures (Scan(b0, cells, cam).alive == b0.alive && Scan(b0, cells, cam).state == b0.state) ||
            (!Scan(b0, cells, cam).alive && Scan(b0, cells, cam).state == GameOver)
    decreases |cells|
  {
    if cells != [] {
      var n := |cells| - 1;
      var front := cells[..n];
      ScanDanger(b0, front, cam);
      ScanLanding(b0, front, cam);
      var p := Scan(b0, front, cam);
      assert forall k :: 0 <= k < n ==> (GroundHit(front, k, b0.y, cam) <==> GroundHit(cells, k, b0.y, cam));
      assert p.onGround <==> LandedBefore(b0, cells, n, cam);
      if p.onGround {
        var i :| GroundHit(front, i, b0.y, cam) &&
          (forall k :: 0 <= k < i ==> !GroundHit(front, k, b0.y, cam)) && p.y == RestingY(front[i]);
        assert FirstGroundHit(cells, i, b0.y, cam);
      }
      StruckSnoc(b0, cells, cam, p.y);
    } else {
      assert !Struck(b0, cells, cam);
    }
  }

  /** A danger tile the player overlaps after integration does not kill it
      when the player has landed on an earlier tile and no longer overlaps it:
      falling at 5 to height 60 onto a ground tile in row 1, it rests at
      height 0, above the danger tile in row 2 that it overlapped at 60. */
  lemma ExampleDangerAfterLanding()
    ensures var cells := [Cell(1, 5, Ground), Cell(2, 6, Danger)];
            var b := Scan(Body(60, 5, true, true, Playing, false), cells, 0);
            Touches(60, cells[1], 0) && b.alive && b.state == Playing && b.y == 0 && b.onGround
  {
    var cells := [Cell(1, 5, Ground), Cell(2, 6, Danger)];
    assert cells[..1] == [Cell(1, 5, Ground)];
    assert cells[..1][..0] == [];
  }

  /** The pass does not change the player while it rises or stands still:
      ground tiles only ever push a falling player up. */
  lemma ScanNotFalling(b0: Body, cells: seq<Cell>, cam: int)
    requires !b0.onGround && b0.vel <= 0
    ensures Scan(b0, cells, cam).y == b0.y && Scan(b0, cells, cam).vel == b0.vel
    ensures Scan(b0, cells, cam).jumping == b0.jumping && !Scan(b0, cells, cam).onGround
  {
    ScanLanding(b0, cells, cam);
  }
}
