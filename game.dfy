/** The simulation engine: one playing field and one snake, advanced one
    tick at a time by `Step`, which reports the points whose tiles changed. */
module Game {
  import opened Types
  import opened Movement
  import opened SnakeBody
  import opened Field

  /** The random source answers `rng(0, n)` with a valid position below `n`
      for every non-empty free set. */
  ghost predicate PicksBelow(rng: (nat, nat) -> nat) {
    forall n: nat :: 0 < n ==> rng(0, n) < n
  }

  /** The abstract state of the engine: the field and the snake. */
  datatype World = World(grid: Grid, snake: SnakeState)
  {
    /** The engine invariant: the free set agrees with the grid, the body is
        never empty and every segment lies on the grid. */
    ghost predicate Valid() {
      grid.Valid() && snake.body != [] &&
      forall q :: q in snake.body ==> IsLegal(grid.width, grid.height, q)
    }

    /** The point the head moves to in direction `d`. */
    function NextHead(d: Direction): Point
      requires snake.body != []
    {
      PredictStep(snake.Head(), d)
    }

    /** A move off the grid or onto a `Body` tile ends the game. */
    predicate IsFatal(d: Direction)
      requires Valid()
    {
      var nh := NextHead(d);
      !IsLegal(grid.width, grid.height, nh) || grid.Get(nh) == Body
    }
  }

  /** The state `create` builds: the fruits put on an empty field and a
      one-segment snake at the origin, whose tile is not marked. */
  function Initial(height: Size, width: Size, origin: Point, fruits: seq<Point>): (w: World)
    requires width * height <= SIZE_MAX
    requires IsLegal(width, height, origin)
    requires forall p :: p in fruits ==> IsLegal(width, height, p)
    ensures w.Valid() && w.grid.width == width && w.grid.height == height
  {
    World(PutAll(EmptyGrid(width, height), fruits, Fruit), SnakeState([origin], 0))
  }

  /** `game_state::step`: the state after one tick and the points updated,
      in order: the popped tail, the new head, the new fruit. */
  function StepSpec(w: World, growthRate: U32, rng: (nat, nat) -> nat, d: Direction)
    : (r: (World, seq<Point>))
    requires w.Valid() && PicksBelow(rng)
    ensures r.0.Valid()
    ensures r.0.grid.width == w.grid.width && r.0.grid.height == w.grid.height
  {
    if w.IsFatal(d) then (w, []) else Advanced(w, growthRate, rng, w.NextHead(d))
  }

  /** The non-fatal part of `step`: grant growth if the head lands on fruit,
      walk the snake, clear the popped tail, mark the head, and after eating
      place a new fruit if the field has room. */
  function Advanced(w: World, growthRate: U32, rng: (nat, nat) -> nat, nh: Point)
    : (r: (World, seq<Point>))
    requires w.Valid() && PicksBelow(rng)
    requires IsLegal(w.grid.width, w.grid.height, nh) && w.grid.Get(nh) != Body
    ensures r.0.Valid()
    ensures r.0.grid.width == w.grid.width && r.0.grid.height == w.grid.height
  {
    var ate := w.grid.Get(nh) == Fruit;
    var walked := Walked(Fed(w.snake, ate, growthRate), nh);
    var g2 := ClearTail(w, walked.1).Put(nh, Body);
    var fruit := if ate then g2.FindEmpty(rng) else None;
    (World(PutFruit(g2, fruit), walked.0), OptionSeq(walked.1) + [nh] + OptionSeq(fruit))
  }

  /** The snake after the growth granted for eating, if it ate. */
  function Fed(s: SnakeState, ate: bool, growthRate: U32): SnakeState {
    if ate then Grown(s, growthRate) else s
  }

  /** The grid with the popped tail, if any, cleared to `Empty`. */
  function ClearTail(w: World, tail: Option<Point>): (g: Grid)
    requires w.Valid() && (tail.Some? ==> tail.value == w.snake.body[0])
    ensures g.Valid() && g.width == w.grid.width && g.height == w.grid.height
  {
    if tail.Some? then w.grid.Put(tail.value, Empty) else w.grid
  }

  /** The grid with the new fruit, if any, put on it. */
  function PutFruit(g: Grid, fruit: Option<Point>): (r: Grid)
    requires g.Valid() && (fruit.Some? ==> IsLegal(g.width, g.height, fruit.value))
    ensures r.Valid() && r.width == g.width && r.height == g.height
  {
    if fruit.Some? then g.Put(fruit.value, Fruit) else g
  }

  /** `create` marks every listed fruit point `Fruit` and leaves every other
      cell `Empty`, the snake's origin included; the snake is just the
      origin with no growth pending. */
  lemma InitialTiles(height: Size, width: Size, origin: Point, fruits: seq<Point>, p: Point)
    requires width * height <= SIZE_MAX
    requires IsLegal(width, height, origin)
    requires forall q :: q in fruits ==> IsLegal(width, height, q)
    requires IsLegal(width, height, p)
    ensures var w := Initial(height, width, origin, fruits);
            w.grid.Get(p) == (if p in fruits then Fruit else Empty) &&
            w.snake.body == [origin] && w.snake.pending == 0
  {
    PutAllTiles(EmptyGrid(width, height), fruits, Fruit, p);
  }

  /** The empty update list is exactly the game-over signal, and a fatal
      move changes neither the field nor the snake. */
  lemma FatalMoveChangesNothing(w: World, growthRate: U32, rng: (nat, nat) -> nat, d: Direction)
    requires w.Valid() && PicksBelow(rng)
    ensures var r := StepSpec(w, growthRate, rng, d);
            (r.1 == [] <==> w.IsFatal(d)) && (w.IsFatal(d) ==> r.0 == w)
  {
  }

  /** Moving onto the current tail cell is fatal whenever that cell is
      marked `Body`: the tail has not moved yet when the tile is read. */
  lemma MoveOntoMarkedTailIsFatal(w: World, growthRate: U32, rng: (nat, nat) -> nat, d: Direction)
    requires w.Valid() && PicksBelow(rng)
    requires w.NextHead(d) == w.snake.body[0]
    requires w.grid.Get(w.snake.body[0]) == Body
    ensures StepSpec(w, growthRate, rng, d).1 == []
  {
  }

  /** The other side of the same check: when the tail cell still reads
      `Empty` (as the never-marked origin does), moving onto it is not
      fatal. The tail is popped and cleared, then the same point is marked
      as the head, so it is reported twice and ends as `Body`. */
  lemma MoveOntoUnmarkedTailIsNotFatal(w: World, growthRate: U32, rng: (nat, nat) -> nat, d: Direction)
    requires w.Valid() && PicksBelow(rng)
    requires w.snake.pending == 0
    requires w.NextHead(d) == w.snake.body[0]
    requires w.grid.Get(w.snake.body[0]) == Empty
    ensures !w.IsFatal(d)
    ensures var r := StepSpec(w, growthRate, rng, d);
            r.1 == [w.snake.body[0], w.snake.body[0]] &&
            r.0.grid.Get(w.snake.body[0]) == Body
  {
  }

  /** With growth pending, moving onto an `Empty` tail cell pops nothing:
      the point is reported once, as the new head, and the body then holds
      it twice, at its tail and at its head. */
  lemma MoveOntoUnmarkedTailWhileGrowing(w: World, growthRate: U32, rng: (nat, nat) -> nat, d: Direction)
    requires w.Valid() && PicksBelow(rng)
    requires w.snake.pending > 0
    requires w.NextHead(d) == w.snake.body[0]
    requires w.grid.Get(w.snake.body[0]) == Empty
    ensures !w.IsFatal(d)
    ensures var r := StepSpec(w, growthRate, rng, d);
            r.1 == [w.snake.body[0]] &&
            r.0.snake.body == w.snake.body + [w.snake.body[0]] &&
            r.0.snake.pending == w.snake.pending - 1 &&
            r.0.grid.Get(w.snake.body[0]) == Body
  {
  }

  /** A first move that does not eat pops the origin: nothing is pending,
      so the one-segment snake moves off it at once. */
  lemma FirstMoveWithoutMealPopsOrigin(height: Size, width: Size, origin: Point, fruits: seq<Point>,
                                       growthRate: U32, rng: (nat, nat) -> nat, d: Direction)
    requires width * height <= SIZE_MAX && PicksBelow(rng)
    requires IsLegal(width, height, origin) && forall p :: p in fruits ==> IsLegal(width, height, p)
    requires var w := Initial(height, width, origin, fruits);
             !w.IsFatal(d) && w.grid.Get(w.NextHead(d)) != Fruit
    ensures var w := Initial(height, width, origin, fruits);
            var r := StepSpec(w, growthRate, rng, d);
            r.0.snake.body == [w.NextHead(d)] && origin !in r.0.snake.body
  {
  }

  /** For any empty cell there is a random source, valid for every free-set
      size, whose answer makes `FindEmpty` pick that cell. */
  lemma SourcePicking(g: Grid, p: Point) returns (rng: (nat, nat) -> nat)
    requires g.Valid() && IsLegal(g.width, g.height, p) && g.Get(p) == Empty
    ensures PicksBelow(rng) && g.FindEmpty(rng) == Some(p)
  {
    var idx := FromCoord(g.width, g.height, p);
    var k :| 0 <= k < |g.free| && g.free[k] == idx;
    rng := (lo: nat, hi: nat) => if hi == |g.free| then k else 0;
    CoordRoundTrip(g.width, g.height, p);
  }

  /** Eating with nothing pending and a positive growth rate pops nothing:
      the head is appended to the body, and when the random source picks
      `f` on the field with the head marked, `f` becomes the new fruit. */
  lemma MealWithChosenFruit(w: World, growthRate: U32, rng: (nat, nat) -> nat, d: Direction, f: Point)
    requires w.Valid() && PicksBelow(rng) && !w.IsFatal(d)
    requires w.grid.Get(w.NextHead(d)) == Fruit && w.snake.pending == 0 && growthRate > 0
    requires w.grid.Put(w.NextHead(d), Body).FindEmpty(rng) == Some(f)
    ensures var r := StepSpec(w, growthRate, rng, d);
            r.0.snake.body == w.snake.body + [w.NextHead(d)] &&
            r.1 == [w.NextHead(d), f] && r.0.grid.Get(f) == Fruit
  {
    var nh := w.NextHead(d);
    var walked := Walked(Fed(w.snake, true, growthRate), nh);
    assert walked.1 == None;
    var r := StepSpec(w, growthRate, rng, d);
    assert r == Advanced(w, growthRate, rng, nh);
  }

  /** A first move that eats with a positive growth rate pops nothing, so the
      origin stays in the body. It is still free when the new fruit is
      chosen, because `create` never marked it, and some valid random source
      puts the new fruit on it, under the snake. */
  lemma FirstMealCanPutFruitUnderSnake(height: Size, width: Size, origin: Point, fruits: seq<Point>,
                                       growthRate: U32, d: Direction)
    requires width * height <= SIZE_MAX && growthRate > 0
    requires IsLegal(width, height, origin) && origin !in fruits
    requires forall p :: p in fruits ==> IsLegal(width, height, p)
    requires var w := Initial(height, width, origin, fruits);
             !w.IsFatal(d) && w.grid.Get(w.NextHead(d)) == Fruit
    ensures var w := Initial(height, width, origin, fruits);
            exists rng: (nat, nat) -> nat :: PicksBelow(rng) &&
              var r := StepSpec(w, growthRate, rng, d);
              r.0.snake.body == [origin, w.NextHead(d)] &&
              r.1 == [w.NextHead(d), origin] && r.0.grid.Get(origin) == Fruit
  {
    var w := Initial(height, width, origin, fruits);
    var nh := w.NextHead(d);
    InitialTiles(height, width, origin, fruits, origin);
    assert nh != origin;
    var rng := SourcePicking(w.grid.Put(nh, Body), origin);
    MealWithChosenFruit(w, growthRate, rng, d, origin);
  }

  /** A successful move: the snake walks to the new head (after being granted
      `growthRate` if the head lands on fruit) and the updates are the popped
      tail, the head and at most one more point, in that order. */
  lemma {:induction false} SuccessfulMove(w: World, growthRate: U32, rng: (nat, nat) -> nat, d: Direction)
    requires w.Valid() && PicksBelow(rng)
    requires !w.IsFatal(d)
    ensures var nh := w.NextHead(d);
            var ate := w.grid.Get(nh) == Fruit;
            var walked := Walked(if ate then Grown(w.snake, growthRate) else w.snake, nh);
            var tail := OptionSeq(walked.1);
            var r := StepSpec(w, growthRate, rng, d);
            r.0.snake == walked.0 && r.0.snake.Head() == nh &&
            |tail| + 1 <= |r.1| <= |tail| + 2 &&
            r.1 == tail + [nh] + r.1[|tail| + 1..]
  {
  }

  /** The tile of any point after a successful move: the new fruit reads
      `Fruit`, the new head `Body`, the popped tail `Empty`, and every other
      point what it read before. */
  lemma {:induction false} StepTile(w: World, growthRate: U32, rng: (nat, nat) -> nat, d: Direction, q: Point)
    requires w.Valid() && PicksBelow(rng)
    requires !w.IsFatal(d) && IsLegal(w.grid.width, w.grid.height, q)
    ensures var nh := w.NextHead(d);
            var ate := w.grid.Get(nh) == Fruit;
            var walked := Walked(if ate then Grown(w.snake, growthRate) else w.snake, nh);
            var tail := OptionSeq(walked.1);
            var r := StepSpec(w, growthRate, rng, d);
            |tail| + 1 <= |r.1| &&
            r.0.grid.Get(q) == if q in r.1[|tail| + 1..] then Fruit
                               else if q == nh then Body
                               else if q in tail then Empty
                               else w.grid.Get(q)
  {
  }

  /** The point reported after the head, if any, is the new fruit: it is
      placed only after eating, on a legal cell other than the new head that
      was empty before the move or is the popped tail, and it is missing
      after eating only when the field is full. */
  lemma {:induction false} NewFruitPlacement(w: World, growthRate: U32, rng: (nat, nat) -> nat, d: Direction)
    requires w.Valid() && PicksBelow(rng)
    requires !w.IsFatal(d)
    ensures var nh := w.NextHead(d);
            var ate := w.grid.Get(nh) == Fruit;
            var walked := Walked(if ate then Grown(w.snake, growthRate) else w.snake, nh);
            var tail := OptionSeq(walked.1);
            var r := StepSpec(w, growthRate, rng, d);
            |tail| + 1 <= |r.1| &&
            var extra := r.1[|tail| + 1..];
            (extra != [] ==> ate && IsLegal(w.grid.width, w.grid.height, extra[0]) &&
                             extra[0] != nh &&
                             (extra[0] in tail || w.grid.Get(extra[0]) == Empty)) &&
            (ate && extra == [] ==> r.0.grid.IsFull())
  {
  }

  /** The engine object of the source: it owns one field and one snake,
      and its growth rate and random source never change. */
  class GameState {
    const field: PlayingField
    const snake: Snake
    const growthRate: U32
    const rng: (nat, nat) -> nat

    /** The engine state the object currently holds. */
    ghost function Model(): World
      reads field, field.data, snake
    {
      World(field.Model(), snake.State())
    }

    ghost predicate Valid()
      reads field, field.data, snake
    {
      Model().Valid() && PicksBelow(rng)
    }

    constructor (field: PlayingField, snake: Snake, growthRate: U32, rng: (nat, nat) -> nat)
      ensures this.field == field && this.snake == snake
      ensures this.growthRate == growthRate && this.rng == rng
    {
      this.field := field;
      this.snake := snake;
      this.growthRate := growthRate;
      this.rng := rng;
    }

    /** `create`: a fresh field with the fruits put on it and a fresh
        one-segment snake at the origin. */
    static method Create(height: Size, width: Size, snakeOrigin: Point, fruits: seq<Point>,
                         growthRate: U32, rng: (nat, nat) -> nat)
      returns (g: GameState)
      requires width * height <= SIZE_MAX
      requires IsLegal(width, height, snakeOrigin)
      requires forall p :: p in fruits ==> IsLegal(width, height, p)
      requires PicksBelow(rng)
      ensures fresh(g) && fresh(g.field) && fresh(g.field.data) && fresh(g.snake)
      ensures g.Valid() && g.growthRate == growthRate && g.rng == rng
      ensures g.field.width == width && g.field.height == height
      ensures g.snake.body == [snakeOrigin] && g.snake.pendingGrowth == 0
      ensures forall p :: IsLegal(width, height, p) ==>
                g.field.Get(p) == if p in fruits then Fruit else Empty
    {
      var field := new PlayingField(width, height);
      for k := 0 to |fruits|
        invariant field.Valid()
        invariant PutAll(field.Model(), fruits[k..], Fruit) == PutAll(EmptyGrid(width, height), fruits, Fruit)
      {
        assert fruits[k..][1..] == fruits[k + 1..];
        field.Put(fruits[k], Fruit);
      }
      var s := new Snake(snakeOrigin);
      g := new GameState(field, s, growthRate, rng);
      assert g.Model() == Initial(height, width, snakeOrigin, fruits);
      forall p | IsLegal(width, height, p)
        ensures g.field.Get(p) == if p in fruits then Fruit else Empty
      {
        InitialTiles(height, width, snakeOrigin, fruits, p);
      }
    }

    /** `get_tile`: the tile at a legal point, read without changing anything. */
    function GetTile(p: Point): (t: Tile)
      reads field, field.data, snake
      requires Valid() && IsLegal(field.width, field.height, p)
      ensures t == Model().grid.Get(p)
    {
      field.Get(p)
    }

    /** The `update_field` helper of `step`: put a tile and record the point. */
    method UpdateField(p: Point, t: Tile, updates: seq<Point>) returns (updates': seq<Point>)
      requires field.Valid() && IsLegal(field.width, field.height, p)
      modifies field, field.data
      ensures field.Valid() && field.Model() == old(field.Model()).Put(p, t)
      ensures updates' == updates + [p]
    {
      field.Put(p, t);
      updates' := updates + [p];
    }

    /** `step`: advance the game by one tick in direction `d`. */
    method Step(d: Direction) returns (updates: seq<Point>)
      requires Valid()
      modifies field, field.data, snake
      ensures Valid()
      ensures (Model(), updates) == StepSpec(old(Model()), growthRate, rng, d)
    {
      updates := [];
      var newHead := PredictStep(snake.Head(), d);
      if !IsLegal(field.width, field.height, newHead) {
        return;
      }
      var t := field.Get(newHead);
      if t == Body {
        return;
      }
      updates := Advance(newHead, t == Fruit);
    }

    /** The non-fatal part of `step`, from the `fruit` case of its switch
        (which grants growth and falls through) and its `empty` case on. */
    method Advance(newHead: Point, ate: bool) returns (updates: seq<Point>)
      requires Valid() && IsLegal(field.width, field.height, newHead)
      requires field.Get(newHead) != Body && ate == (field.Get(newHead) == Fruit)
      modifies field, field.data, snake
      ensures Valid()
      ensures (Model(), updates) == Advanced(old(Model()), growthRate, rng, newHead)
    {
      ghost var w := Model();
      updates := [];
      var grow := false;
      if ate {
        snake.Grow(growthRate);
        grow := true;
      }
      assert snake.State() == Fed(w.snake, ate, growthRate);
      var maybeTail := snake.Walk(newHead);
      ghost var walked := Walked(Fed(w.snake, ate, growthRate), newHead);
      assert snake.State() == walked.0 && maybeTail == walked.1;
      if maybeTail.Some? {
        updates := UpdateField(maybeTail.value, Empty, updates);
      }
      assert field.Model() == ClearTail(w, maybeTail);
      assert updates == OptionSeq(maybeTail);
      updates := UpdateField(newHead, Body, updates);
      ghost var moved := updates;
      ghost var g2 := field.Model();
      var maybeFruit: Option<Point> := None;
      if grow {
        maybeFruit := field.FindEmpty(rng);
        if maybeFruit.Some? {
          updates := UpdateField(maybeFruit.value, Fruit, updates);
        }
      }
      assert updates == moved + OptionSeq(maybeFruit);
      assert maybeFruit == if ate then g2.FindEmpty(rng) else None;
      assert field.Model() == PutFruit(g2, maybeFruit);
      assert updates == OptionSeq(maybeTail) + [newHead] + OptionSeq(maybeFruit);
    }
  }
}
