/**
 * The playing field of the snake game: its dimensions, grid cells, and the
 * random coordinate helper used to place the apple.
 */
module Grid {

  const SCREEN_WIDTH: int := 900
  const SCREEN_HEIGHT: int := 600
  const CELL_SIZE: int := 30

  /** Grid dimensions, derived from the screen size by integer division: 20 rows and 30 columns. */
  const ROWS: int := SCREEN_HEIGHT / CELL_SIZE
  const COLUMNS: int := SCREEN_WIDTH / CELL_SIZE

  /** A grid cell; coordinates may lie outside the grid for one tick (a wall hit). */
  datatype Cell = Cell(x: int, y: int)

  /** The cell lies on the 30 x 20 grid. */
  predicate InGrid(c: Cell)
  {
    0 <= c.x < COLUMNS && 0 <= c.y < ROWS
  }

  /**
   * `a + rand() % (b - a + 1)`, with `roll` the value `rand()` returned.
   * `rand()` never returns a negative value, so C's truncating `%` and
   * Dafny's Euclidean `%` agree here.
   */
  function RandomNumber(a: int, b: int, roll: nat): (r: int)
    requires a <= b
    ensures a <= r <= b
  {
    a + roll % (b - a + 1)
  }

  /** Every value of the range is produced by some roll. */
  lemma RandomNumberReaches(a: int, b: int, v: int)
    requires a <= v <= b
    ensures RandomNumber(a, b, v - a) == v
  {
  }
}
