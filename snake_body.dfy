/** The snake's body tracker: a FIFO queue of points, tail at the front and
    head at the back, with a counter of growth still to be applied. */
module SnakeBody {
  import opened Types

  /** The abstract value of a snake: its body from tail to head and its
      pending growth. */
  datatype SnakeState = SnakeState(body: seq<Point>, pending: U32)
  {
    /** The most recently pushed point. */
    function Head(): Point
      requires body != []
    {
      body[|body| - 1]
    }
  }

  /** `walk(p)`: push `p` as the new head, then either use up one unit of
      pending growth (no tail is returned) or pop and return the oldest
      point. */
  function Walked(s: SnakeState, p: Point): (r: (SnakeState, Option<Point>))
    ensures s.body != [] || s.pending > 0 ==> r.0.body != [] && r.0.Head() == p
    ensures r.1.None? <==> s.pending > 0
    ensures r.1.None? ==> |r.0.body| == |s.body| + 1 && r.0.pending == s.pending - 1
    ensures r.1.Some? ==> |r.0.body| == |s.body| && r.0.pending == 0
    ensures r.1.Some? ==> r.1.value == (s.body + [p])[0]
    ensures |r.0.body| + r.0.pending == |s.body| + s.pending
    ensures forall q :: q in r.0.body ==> q in s.body || q == p
  {
    var pushed := s.body + [p];
    if s.pending > 0 then
      (SnakeState(pushed, s.pending - 1), None)
    else
      (SnakeState(pushed[1..], 0), Some(pushed[0]))
  }

  /** `grow(amount)`: add `amount` to the pending growth, wrapping around
      like the source's `uint32_t` counter. */
  function Grown(s: SnakeState, amount: U32): (r: SnakeState)
    ensures r.body == s.body
    ensures s.pending + amount < U32_LIMIT ==> r.pending == s.pending + amount
  {
    SnakeState(s.body, (s.pending + amount) % U32_LIMIT)
  }

  /** The state and the returned tails after walking to each of `ps` in turn. */
  function WalkAll(s: SnakeState, ps: seq<Point>): (r: (SnakeState, seq<Option<Point>>))
    ensures |r.1| == |ps|
    decreases |ps|
  {
    if ps == [] then (s, [])
    else
      var first := Walked(s, ps[0]);
      var rest := WalkAll(first.0, ps[1..]);
      (rest.0, [first.1] + rest.1)
  }

  /** While growth is pending, walks keep every segment: no tail is
      returned, the walked points are appended and one unit of growth is
      used up per walk. */
  lemma {:induction false} PendingGrowthKeepsTail(s: SnakeState, ps: seq<Point>)
    requires |ps| <= s.pending
    ensures var r := WalkAll(s, ps);
            r.0.body == s.body + ps && r.0.pending == s.pending - |ps| &&
            forall k :: 0 <= k < |ps| ==> r.1[k] == None
    decreases |ps|
  {
    if ps != [] {
      var first := Walked(s, ps[0]);
      PendingGrowthKeepsTail(first.0, ps[1..]);
      assert s.body + ps == first.0.body + ps[1..];
    }
  }

  /** With no growth pending, the body is a FIFO queue: the k-th walk returns
      the k-th oldest point of the body followed by the walked points, and the
      body keeps its length. */
  lemma {:induction false} WalkIsFifo(s: SnakeState, ps: seq<Point>)
    requires s.pending == 0
    ensures var r := WalkAll(s, ps);
            |r.0.body| == |s.body| && r.0.pending == 0 &&
            r.0.body == (s.body + ps)[|ps|..] &&
            forall k :: 0 <= k < |ps| ==> r.1[k] == Some((s.body + ps)[k])
    decreases |ps|
  {
    if ps != [] {
      var first := Walked(s, ps[0]);
      WalkIsFifo(first.0, ps[1..]);
      var all := s.body + ps;
      assert first.0.body + ps[1..] == all[1..];
      var r := WalkAll(s, ps);
      forall k | 0 <= k < |ps|
        ensures r.1[k] == Some(all[k])
      {
        if k > 0 {
          assert (first.0.body + ps[1..])[k - 1] == all[k];
        }
      }
    }
  }

  /** After `grow(n)` on a snake with nothing pending, the next `n` walks
      return no tail and the one after returns the snake's old tail. */
  lemma GrowThenWalk(s: SnakeState, n: U32, ps: seq<Point>, p: Point)
    requires s.pending == 0 && s.body != [] && |ps| == n
    ensures var after := WalkAll(Grown(s, n), ps);
            (forall k :: 0 <= k < n ==> after.1[k] == None) &&
            Walked(after.0, p).1 == Some(s.body[0])
  {
    PendingGrowthKeepsTail(Grown(s, n), ps);
  }

  /** Body-length accounting: over a run of walks the body grows by one per
      walk that still had growth pending, and by nothing otherwise. */
  lemma {:induction false} WalkAllLength(s: SnakeState, ps: seq<Point>)
    ensures var r := WalkAll(s, ps);
            |r.0.body| == |s.body| + (if |ps| <= s.pending then |ps| else s.pending) &&
            r.0.pending == (if |ps| <= s.pending then s.pending - |ps| else 0)
    decreases |ps|
  {
    if ps != [] {
      WalkAllLength(Walked(s, ps[0]).0, ps[1..]);
    }
  }

  /** A body that starts non-empty is never empty again. */
  lemma {:induction false} WalkAllNonEmpty(s: SnakeState, ps: seq<Point>)
    requires s.body != []
    ensures WalkAll(s, ps).0.body != []
    ensures ps != [] ==> WalkAll(s, ps).0.Head() == ps[|ps| - 1]
    decreases |ps|
  {
    if ps != [] {
      WalkAllNonEmpty(Walked(s, ps[0]).0, ps[1..]);
    }
  }

  /** The snake object of the source: `body_` is a queue the methods push to
      and pop from, `pending_growth_` a counter they update. */
  class Snake {
    var body: seq<Point>
    var pendingGrowth: U32

    function State(): SnakeState
      reads this
    {
      SnakeState(body, pendingGrowth)
    }

    /** The body starts as exactly the starting point, with nothing pending. */
    constructor (start: Point)
      ensures body == [start] && pendingGrowth == 0
    {
      pendingGrowth := 0;
      body := [start];
    }

    function Head(): Point
      reads this
      requires body != []
    {
      State().Head()
    }

    method Walk(p: Point) returns (tail: Option<Point>)
      modifies this
      ensures (State(), tail) == Walked(old(State()), p)
    {
      body := body + [p];
      if pendingGrowth > 0 {
        pendingGrowth := pendingGrowth - 1;
        tail := None;
      } else {
        tail := Some(body[0]);
        body := body[1..];
      }
    }

    method Grow(amount: U32)
      modifies this
      ensures State() == Grown(old(State()), amount)
    {
      pendingGrowth := (pendingGrowth + amount) % U32_LIMIT;
    }
  }
}
