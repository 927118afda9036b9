/** Fixed settings of the game: screen, player, physics, camera and tile
    constants, and the three game states. All values are integers. */
module Settings {

  const SCREEN_WIDTH := 800
  const SCREEN_HEIGHT := 600

  const PLAYER_WIDTH := 50
  const PLAYER_HEIGHT := 50
  /** The player's fixed horizontal screen position: 800 // 3 == 266. */
  const PLAYER_X := SCREEN_WIDTH / 3
  /** The vertical position the player gets on reset: 600 - 50 - 50 == 500. */
  const START_Y := SCREEN_HEIGHT - PLAYER_HEIGHT - 50

  const JUMP_FORCE := 20
  const GRAVITY := 1
  const SCROLL_SPEED := 5

  const TILE_SIZE := 50
  const FIRST_LEVEL := 1

  datatype GameState = Menu | Playing | GameOver
}
