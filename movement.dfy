/** The one-cell move of the snake's head (`predict_step`), computed in
    unsigned `size_t` arithmetic: a step north from row 0 or west from
    column 0 wraps around to the largest `size_t`. */
module Movement {
  import opened Types
  import opened Field

  /** `x - 1` in `size_t`. */
  function Decrement(x: Size): Size {
    if x == 0 then SIZE_MAX else x - 1
  }

  /** `x + 1` in `size_t`. */
  function Increment(x: Size): Size {
    if x == SIZE_MAX then 0 else x + 1
  }

  /** The point one cell from `start` in direction `dir`: north and south
      change the row, east and west change the column. */
  function PredictStep(start: Point, dir: Direction): Point {
    match dir
    case North => Point(Decrement(start.i), start.j)
    case South => Point(Increment(start.i), start.j)
    case East => Point(start.i, Increment(start.j))
    case West => Point(start.i, Decrement(start.j))
  }

  /** The direction that undoes `dir`. */
  function Opposite(dir: Direction): Direction {
    match dir
    case North => South
    case South => North
    case East => West
    case West => East
  }

  /** North and west take one off the row or the column, wrapping from 0 to
      the largest `size_t`; south and east add one (for coordinates below
      that largest value); the other coordinate is kept. */
  lemma PredictStepOffsets(start: Point, dir: Direction)
    requires start.i < SIZE_MAX && start.j < SIZE_MAX
    ensures var r := PredictStep(start, dir);
            match dir
            case North => r.j == start.j && r.i == if start.i > 0 then start.i - 1 else SIZE_MAX
            case South => r.j == start.j && r.i == start.i + 1
            case East => r.i == start.i && r.j == start.j + 1
            case West => r.i == start.i && r.j == if start.j > 0 then start.j - 1 else SIZE_MAX
  {
  }

  /** Every step is undone by the step in the opposite direction, the
      wrapped ones included: the move is a bijection on points. */
  lemma PredictStepInverse(start: Point, dir: Direction)
    ensures PredictStep(PredictStep(start, dir), Opposite(dir)) == start
    ensures PredictStep(start, dir) != start
  {
  }

  /** From a legal point of a `height` x `width` grid, the predicted point is
      legal exactly when the move does not cross the grid's edge; in
      particular a wrapped step north or west is never legal. */
  lemma PredictStepInside(width: Size, height: Size, start: Point, dir: Direction)
    requires IsLegal(width, height, start)
    ensures IsLegal(width, height, PredictStep(start, dir)) <==>
              match dir
              case North => start.i > 0
              case South => start.i + 1 < height
              case East => start.j + 1 < width
              case West => start.j > 0
  {
  }
}
