/** The configuration constants the modelled code reads (game/config.py). */
module Config {

  /** `GAME_CONFIG['MAX_HP']`: the live hit points both combatants start with. */
  const MaxHp: int := 300

  /** `GAME_CONFIG['MINIMAX_DEPTH']`: the search depth the window uses for the AI's move. */
  const MinimaxDepth: nat := 6
}
