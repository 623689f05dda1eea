# Snake engine model

A Dafny model of the simulation engine of a terminal snake game. The engine has three parts:

- **The snake** (`SnakeBody`): a FIFO queue of grid points with the tail at the front and the head at the back, plus a `uint32` counter of pending growth. `walk` pushes the new head first. It then either uses up one unit of pending growth, or pops and returns the old tail. `grow` adds to the counter.
- **The playing field** (`Field`): a row-major vector of tiles (`Empty`, `Fruit`, `Body`) and the set of indices of its empty cells. `put` writes a tile and keeps the free set in step with the tiles. `find_empty` picks a free cell through an injected random source.
- **The engine** (`Game`): `create` builds a field, puts the fruits on it and places a one-segment snake. `step(d)` predicts the new head and returns an empty update list when the move is fatal: off the grid, or onto a `Body` tile. Otherwise it grants growth on fruit, walks the snake, clears the popped tail and marks the head `Body`. After eating it places a new fruit if there is room. It returns the changed points in the order tail, head, fruit.

The modules and their files:

- `types.dfy`: `Direction`, `Tile`, `Point`, `Option`, and the `size_t` and `uint32_t` ranges.
- `movement.dfy`: `predict_step`, with the unsigned wrap-around written out.
- `snake_body.dfy`: the pure snake value `SnakeState` with `Walked` and `Grown`, and the class `Snake` proved against them.
- `field.dfy`:
  - coordinate conversion;
  - the free set's insert and erase;
  - the grid value `Grid` with `Get`, `Put`, `IsFull` and `FindEmpty`;
  - the class `PlayingField`, which holds an `array<Tile>` and a free-index sequence, proved against `Grid`.
- `game.dfy`:
  - the engine value `World`;
  - the specification function `StepSpec` of one tick, and lemmas about it;
  - the class `GameState`. Its `Step` method mutates the field and the snake in place and is proved to produce exactly `StepSpec` of the old state.
- `scenarios.dfy`: client code in the manner of the game's driver. Its scenarios assert what the contracts guarantee: growth accounting, a wall collision, and a plain move.

Behaviour of the code that the model keeps as written:

- `create` never marks the snake's origin `Body` (`InitialTiles`). If the very first move eats and the growth rate is above 0, nothing is popped. The origin is then still in the body and still free when the new fruit is chosen, so the fruit can land on it under the snake (`FirstMealCanPutFruitUnderSnake`). Any other first move pops the origin at once (`FirstMoveWithoutMealPopsOrigin`).
- Moving onto the tail cell is fatal when that cell reads `Body` (`MoveOntoMarkedTailIsFatal`). When it reads `Empty`, as the unmarked origin does, the move succeeds. With nothing pending, the tail is popped and the cell is reported twice (`MoveOntoUnmarkedTailIsNotFatal`). With growth pending, nothing is popped: the cell is reported once and the body then holds that point twice (`MoveOntoUnmarkedTailWhileGrowing`).
- The update list of a plain first move reports the origin as cleared: the one-segment snake pops its tail. The `BasicMove` scenario shows `[Point(2, 2), Point(2, 3)]`.
- Every walk conserves body length plus pending growth (`Walked`). Over a run, the body grows by the number of walks that still had growth pending (`WalkAllLength`).
- The driver's random source returns a value in `[lb, ub]`, upper bound included (src/snake.cpp:67-68). `find_empty` nevertheless asks it for `rng(0, size)`, which may be one past the last element of the free set. The model requires the answer to lie below the set's size; see `Field.Grid.FindEmpty` under "Left out".

## Model

| member | source | states |
|---|---|---|
| Movement.PredictStepOffsets | src/game_state.cpp:7-30 | North takes one off the row and west one off the column, wrapping from 0 to the largest `size_t`; south and east add one below that largest value; the other coordinate is kept. |
| Movement.PredictStepInverse | src/game_state.cpp:7-30 | The opposite step undoes every step, including the wrapped ones, and no step leaves the point where it was. |
| Movement.PredictStepInside | src/game_state.cpp:7-30 | From a legal point, `IsLegal` holds of the predicted point exactly when the move does not cross the grid's edge. A north or west step from index 0 wraps and is never legal. |
| Field.LegalExcludesMaxCoordinate | src/game_state.cpp:80-82 | A point with a coordinate that wrapped to the largest `size_t` is never legal, whatever the grid's size. |
| SnakeBody.Walked | src/game_state.cpp:33-44 | After `walk(p)` the head is `p`. No tail is returned exactly when growth was pending; then the body gains one point and the counter loses one. Otherwise the oldest point is returned, the length is kept and nothing remains pending. Body length plus pending growth is conserved, and the only new point is `p`. |
| SnakeBody.Grown | src/game_state.cpp:46 | `grow` leaves the body unchanged and, without `uint32` overflow, adds `amount` to the pending growth. |
| SnakeBody.PendingGrowthKeepsTail | src/game_state.cpp:33-44 | While growth is pending, each walk appends its point, returns no tail and uses up one unit. |
| SnakeBody.WalkIsFifo | src/game_state.hpp:40 | With nothing pending, the body is a FIFO queue: the k-th walk returns the k-th oldest point of body followed by walked points, and the length is kept. |
| SnakeBody.GrowThenWalk | src/game_state.cpp:33-46 | After `grow(n)` with nothing pending, the next `n` walks return no tail and the one after returns the old tail. |
| SnakeBody.WalkAllLength | src/game_state.cpp:33-44 | Over a run of walks, the body grows by the number of walks that still had growth pending, and the counter drops by the same number. |
| SnakeBody.WalkAllNonEmpty | src/game_state.cpp:33-48 | A non-empty body is never empty after any walks, and the head is the last point walked to. |
| SnakeBody.Snake.constructor | src/game_state.hpp:32 | The body is exactly `[start]` with nothing pending. |
| SnakeBody.Snake.Walk | src/game_state.cpp:33-44 | The in-place push/pop produces exactly the state and tail of `Walked`. |
| SnakeBody.Snake.Grow | src/game_state.cpp:46 | The counter update produces exactly `Grown`, including the `uint32` wrap. |
| Field.FromCoord | src/game_state.cpp:64-66 | The row-major index of a legal point is below `width * height`. |
| Field.ToCoord | src/game_state.cpp:57-62 | The point decoded from an in-range index is legal, and `from_coord` maps it back to that index. |
| Field.CoordRoundTrip | src/game_state.cpp:57-66 | For a legal point, `to_coord(from_coord(p)) == p`. |
| Field.FromCoordInjective | src/game_state.cpp:64-66 | Distinct legal points have distinct indices. |
| Field.Insert | src/game_state.cpp:74 | Inserting into the free set gives a duplicate-free set holding the old members and the new index. |
| Field.Erase | src/game_state.cpp:76 | Erasing from the free set gives a duplicate-free set holding the old members except the index, one element shorter when it was there. |
| Field.Grid.Get | src/game_state.cpp:68 | A legal point's tile is `Empty` exactly when its index is in the free set. |
| Field.Grid.Put | src/game_state.cpp:70-78 | `put` keeps the free-set invariant (an index is free iff its tile is `Empty`). The point then reads `t`, and every other legal point reads as before. |
| Field.Grid.IsFull | src/game_state.cpp:84 | The free set is empty exactly when no cell is `Empty`. |
| Field.Grid.FindEmpty | src/game_state.cpp:86-93 | Nothing is returned exactly when the field is full. Otherwise the result is a legal point whose tile is `Empty`; being a function of the grid, it changes nothing. |
| Field.Grid.FindEmptyReachesEveryEmptyCell | src/game_state.cpp:86-93 | Every empty legal point is the answer of `find_empty` for some in-range choice of the random source. |
| Field.EmptyGrid | src/game_state.cpp:50-55 | The constructed field satisfies the free-set invariant and has the given size, and every legal point reads `Empty`. |
| Field.PutAll | src/game_state.cpp:101-103 | Putting a tile at a list of legal points keeps the free-set invariant and the field's size. |
| Field.PutAllTiles | src/game_state.cpp:101-103 | After putting `t` at each listed point, exactly those points read `t`, and the others read as before. |
| Field.PlayingField.constructor | src/game_state.cpp:50-55 | The loop that inserts every index leaves the object holding exactly `EmptyGrid(width, height)`, with a fresh tile array. |
| Field.PlayingField.Get | src/game_state.cpp:68 | Reading the array gives the grid value's `Get`. |
| Field.PlayingField.IsFull | src/game_state.cpp:84 | The emptiness test on the free sequence gives the grid value's `IsFull`. |
| Field.PlayingField.FindEmpty | src/game_state.cpp:86-93 | The query on the object gives the grid value's `FindEmpty`. |
| Field.PlayingField.Put | src/game_state.cpp:70-78 | The in-place array write and free-set update keep the invariant and leave the object holding the grid value's `Put`. |
| Game.Initial | src/game_state.cpp:95-108 | The state `create` builds satisfies the engine invariant and has the given size. |
| Game.InitialTiles | src/game_state.cpp:95-108 | After `create`, every listed fruit point reads `Fruit` and every other cell reads `Empty`, the snake's origin included; the snake is `[origin]` with nothing pending. |
| Game.StepSpec | src/game_state.cpp:110-145 | One tick keeps the engine invariant: the free set agrees with the tiles, the body is non-empty and lies on the grid. The field's size is unchanged. |
| Game.Advanced | src/game_state.cpp:122-144 | The non-fatal part of a tick keeps the engine invariant and the field's size. |
| Game.FatalMoveChangesNothing | src/game_state.cpp:113-126 | The update list is empty exactly when the move is off the grid or onto a `Body` tile, and then field and snake are unchanged. |
| Game.MoveOntoMarkedTailIsFatal | src/game_state.cpp:124-126 | Moving onto the current tail cell is fatal whenever that cell reads `Body`, because the tail has not moved yet when the tile is read. |
| Game.FirstMoveWithoutMealPopsOrigin | src/game_state.cpp:95-136 | After `create`, a non-fatal first move that does not eat leaves the body as just the new head, so the origin is no longer in it. |
| Game.SourcePicking | src/game_state.cpp:86-93 | For every empty legal cell there is a random source, answering below the size for every free-set size, with which `find_empty` picks that cell. |
| Game.MealWithChosenFruit | src/game_state.cpp:127-141 | Eating with nothing pending and a positive growth rate pops nothing. The head is appended to the body, and the cell that `find_empty` picks on the field with the head marked is reported after the head and reads `Fruit`. |
| Game.FirstMealCanPutFruitUnderSnake | src/game_state.cpp:95-141 | After `create`, if the first move eats and the growth rate is positive, some valid random source gives body `[origin, head]`, updates `[head, origin]`, and `Fruit` on the origin: the new fruit lies under the snake. |
| Game.MoveOntoUnmarkedTailWhileGrowing | src/game_state.cpp:124-136 | With growth pending, moving onto a tail cell that reads `Empty` is not fatal. Nothing is popped, so the updates are just that point, the body gains it a second time at the head, one unit of growth is used up, and the cell ends `Body`. |
| Game.MoveOntoUnmarkedTailIsNotFatal | src/game_state.cpp:124-135 | With nothing pending, moving onto a tail cell that reads `Empty` is not fatal. The tail is popped and cleared, then marked as the head, so the updates are that point twice and it ends `Body`. |
| Game.SuccessfulMove | src/game_state.cpp:127-136 | On a non-fatal move the snake is the result of walking to the new head, after being granted growth if the head lands on fruit. The updates start with the popped tail (if any) and then the new head, followed by at most one more point. |
| Game.StepTile | src/game_state.cpp:118-144 | After a non-fatal move the new fruit reads `Fruit`, the new head `Body` and the popped tail `Empty`; every other legal point keeps its tile. |
| Game.NewFruitPlacement | src/game_state.cpp:138-142 | A point after the head is reported only after eating. It is a legal cell other than the new head that was `Empty` before the move or is the popped tail. After eating it is missing only when the field is full. |
| Game.GameState.constructor | src/game_state.hpp:77-82 | The engine stores the field, the snake, the growth rate and the random source it is given. |
| Game.GameState.Create | src/game_state.cpp:95-108 | `create` returns fresh objects satisfying the invariant, with the given size, rate and random source. The snake is `[origin]` with nothing pending; the listed fruit points read `Fruit` and every other legal point `Empty`. |
| Game.GameState.GetTile | src/game_state.hpp:74 | `get_tile` is the field's tile at the point and changes nothing. |
| Game.GameState.UpdateField | src/game_state.cpp:118-121 | The `update_field` helper puts the tile on the field and appends the point to the update list. |
| Game.GameState.Step | src/game_state.cpp:110-145 | The in-place tick keeps the invariant and leaves the engine, with the updates it returns, exactly as `StepSpec` of the old state. |
| Game.GameState.Advance | src/game_state.cpp:122-144 | The non-fatal branch of the in-place tick leaves the engine and the updates exactly as `Advanced` of the old state. |

## Left out

- The random source is a stored total function `(nat, nat) -> nat`. `srand`/`rand`, the `std::function` wrapper and the inclusive random source of the driver are not part of this model.
- Because the stored source is a fixed function, one game answers the same index every time it asks with the same free-set size; `rand()` does not. Every lemma about a tick holds for every random source, but a run of several ticks in the model covers only such repeatable sources.
- Field.Grid.FindEmpty: requires the random source to answer `rng(0, size)` with a value below `size`. The code asks for an index in `[0, size]` of an inclusive source, and `size` would advance the iterator to the end of the set, which is undefined behaviour. The model does not capture that case. `Game.PicksBelow` states the requirement for the engine.
- Game.GameState.Create: requires the origin and every fruit point to be legal and `width * height` to fit in `size_t`. The code checks neither. An illegal fruit point is written at index `width * i + j`, which either hits another cell (for `(0, width)` with two or more rows, the cell `(1, 0)`) or lies outside the tile vector, which is undefined behaviour. An illegal origin is never written by `create`; it is first written when `walk` pops it as the tail.
- The product `width * height` is never allowed to wrap. `size_t` wrap-around is modelled only where it occurs in `predict_step`.
- The free set is a duplicate-free sequence whose order stands for the hash-dependent iteration order of `std::unordered_set`. Which cell `find_empty` picks for a given index depends on that order. The grid value `Grid` and every lemma about a tick hold for any duplicate-free order. The class `PlayingField` keeps one particular order instead: ascending from its constructor, with indices that become free appended at the end and erasure keeping the order of the rest.
- `std::unique_ptr` ownership is not modelled: the engine holds its field and its snake as plain object references.
- The snake's `head` is the function `SnakeBody.Snake.Head` without a contract of its own. What it returns after a walk is stated by `SnakeBody.Walked` and `SnakeBody.WalkAllNonEmpty`.
- The driver program is not part of this model: terminal drawing, the input thread and its shared variables, frame timing, and the retry loop that places the first fruit away from the snake.
- The numeric values of the enumerations are not modelled; `Empty` is the first constructor of `Tile`, as `empty = 0` is the first enumerator.
