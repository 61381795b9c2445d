/** The game's fixed configuration (script.js, lines 1-2). */
module Config {

  /** Letters in a word, and tiles in a board row. */
  const WORD_LENGTH: nat := 5

  /** Rows on the board: the number of guesses a player gets. */
  const TRIES: nat := 6
}
