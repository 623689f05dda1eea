/** Client code in the manner of the game's driver: each method builds an
    engine, drives it, and asserts what the contracts of `Create`, `Step`
    and `Walk` guarantee about the outcome. */
module Scenarios {
  import opened Types
  import opened SnakeBody
  import opened Field
  import opened Game

  /** A random source that always picks the first free cell. */
  function First(lo: nat, hi: nat): nat {
    lo
  }

  /** `grow(3)`: three walks keep the tail, the fourth returns it. */
  method GrowthAccounting() {
    var s := new Snake(Point(1, 1));
    s.Grow(3);
    var t1 := s.Walk(Point(1, 2));
    var t2 := s.Walk(Point(1, 3));
    var t3 := s.Walk(Point(1, 4));
    assert t1 == None && t2 == None && t3 == None;
    var t4 := s.Walk(Point(1, 5));
    assert t4 == Some(Point(1, 1));
    assert s.body == [Point(1, 2), Point(1, 3), Point(1, 4), Point(1, 5)];
  }

  /** A step north from row 0 leaves the grid: nothing is reported and
      nothing changes. */
  method WallCollision(height: Size, width: Size)
    requires 3 <= height && 4 <= width && width * height <= SIZE_MAX
  {
    var g := GameState.Create(height, width, Point(0, 0), [Point(2, 3)], 4, First);
    ghost var before := g.Model();
    var updates := g.Step(North);
    assert updates == [];
    assert g.Model() == before;
  }

  /** A plain move east: the old cell is reported cleared, then the new head,
      which now reads `Body`. */
  method BasicMove(height: Size, width: Size)
    requires 3 <= height && 4 <= width && width * height <= SIZE_MAX
  {
    var g := GameState.Create(height, width, Point(2, 2), [], 4, First);
    ghost var w := g.Model();
    SuccessfulMove(w, 4, First, East);
    var updates := g.Step(East);
    assert updates == [Point(2, 2), Point(2, 3)];
    var t := g.GetTile(Point(2, 3));
    assert t == Body;
  }
}
