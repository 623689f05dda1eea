/** The playing field: a row-major grid of tiles together with the index set
    of its empty cells, kept in step with the grid by every write. */
module Field {
  import opened Types

  /** `is_legal`: the point lies on the grid. The coordinates are unsigned,
      so only the upper bounds are checked. */
  predicate IsLegal(width: nat, height: nat, p: Point) {
    p.j < width && p.i < height
  }

  /** A coordinate that wrapped below zero to the largest `size_t` is never
      legal, whatever the grid's size. */
  lemma LegalExcludesMaxCoordinate(width: Size, height: Size, p: Point)
    ensures p.i == SIZE_MAX || p.j == SIZE_MAX ==> !IsLegal(width, height, p)
  {
  }

  lemma RowMajorBound(width: nat, height: nat, i: nat, j: nat)
    requires i < height && j < width
    ensures width * i + j < width * height
  {
    assert width * i + j < width * (i + 1);
    assert width * (i + 1) <= width * height;
  }

  /** `from_coord`: the row-major index of a legal point, which addresses
      a cell of the `width * height` grid. */
  function FromCoord(width: nat, height: nat, p: Point): (idx: nat)
    requires IsLegal(width, height, p)
    ensures idx < width * height
  {
    RowMajorBound(width, height, p.i, p.j);
    width * p.i + p.j
  }

  lemma MulMonotone(a: nat, b: nat, c: nat)
    requires b <= c
    ensures a * b <= a * c
  {
  }

  lemma DivModUnique(width: nat, idx: nat, i: nat, j: nat)
    requires j < width && idx == width * i + j
    ensures idx / width == i && idx % width == j
  {
    var q, r := idx / width, idx % width;
    assert idx == width * q + r;
    if q > i {
      MulMonotone(width, i + 1, q);
    } else if q < i {
      MulMonotone(width, q + 1, i);
    }
  }

  lemma DivBelow(width: nat, height: nat, idx: nat)
    requires idx < width * height
    ensures width > 0 && idx / width < height
  {
    if width > 0 && idx / width >= height {
      MulMonotone(width, height, idx / width);
    }
  }

  /** `to_coord`: the legal point stored at a grid index; it is the inverse
      of `FromCoord`. */
  function ToCoord(width: nat, height: nat, idx: nat): (p: Point)
    requires width * height <= SIZE_MAX
    requires idx < width * height
    ensures IsLegal(width, height, p)
    ensures FromCoord(width, height, p) == idx
  {
    DivBelow(width, height, idx);
    Point(idx / width, idx % width)
  }

  /** Decoding the index of a legal point gives the point back. */
  lemma CoordRoundTrip(width: nat, height: nat, p: Point)
    requires width * height <= SIZE_MAX
    requires IsLegal(width, height, p)
    ensures ToCoord(width, height, FromCoord(width, height, p)) == p
  {
    DivModUnique(width, FromCoord(width, height, p), p.i, p.j);
  }

  /** Distinct legal points occupy distinct cells. */
  lemma FromCoordInjective(width: nat, height: nat, p: Point, q: Point)
    requires width * height <= SIZE_MAX
    requires IsLegal(width, height, p) && IsLegal(width, height, q)
    requires FromCoord(width, height, p) == FromCoord(width, height, q)
    ensures p == q
  {
    CoordRoundTrip(width, height, p);
    CoordRoundTrip(width, height, q);
  }

  predicate NoDuplicates(s: seq<nat>) {
    forall a, b :: 0 <= a < b < |s| ==> s[a] != s[b]
  }

  /** `unordered_set::insert`: add `x` unless it is already there. */
  function Insert(s: seq<nat>, x: nat): (r: seq<nat>)
    requires NoDuplicates(s)
    ensures NoDuplicates(r)
    ensures forall y :: y in r <==> y in s || y == x
  {
    if x in s then s else s + [x]
  }

  /** `unordered_set::erase`: remove `x` if it is there, keeping the order of
      the other elements. */
  function Erase(s: seq<nat>, x: nat): (r: seq<nat>)
    requires NoDuplicates(s)
    ensures NoDuplicates(r)
    ensures forall y :: y in r <==> y in s && y != x
    ensures |r| == if x in s then |s| - 1 else |s|
  {
    if s == [] then []
    else if s[0] == x then s[1..]
    else
      assert forall k :: 0 <= k < |s| - 1 ==> s[1..][k] == s[k + 1];
      assert s[0] !in s[1..];
      [s[0]] + Erase(s[1..], x)
  }

  /** The abstract value of a playing field: its size, the tiles in row-major
      order, and the free indices. The order of `free` stands for the
      iteration order of the source's hash set, which no lemma relies on. */
  datatype Grid = Grid(width: Size, height: Size, tiles: seq<Tile>, free: seq<nat>)
  {
    /** The free-set invariant: an index is free exactly when its tile is
        empty, and every legal point has a tile. */
    ghost predicate Valid() {
      width * height <= SIZE_MAX &&
      |tiles| == width * height &&
      NoDuplicates(free) &&
      forall idx: nat :: idx in free <==> idx < |tiles| && tiles[idx] == Empty
    }

    /** `get`: the tile at a legal point; it is empty exactly when the
        point's index is free. */
    function Get(p: Point): (t: Tile)
      requires Valid() && IsLegal(width, height, p)
      ensures t == Empty <==> FromCoord(width, height, p) in free
    {
      tiles[FromCoord(width, height, p)]
    }

    /** `put`: write `t` at a legal point and insert its index into, or
        erase it from, the free set. The free-set invariant still holds, the
        point now reads `t` and every other point reads as before. */
    function Put(p: Point, t: Tile): (r: Grid)
      requires Valid() && IsLegal(width, height, p)
      ensures r.Valid() && r.width == width && r.height == height
      ensures r.Get(p) == t
      ensures forall q :: IsLegal(width, height, q) && q != p ==> r.Get(q) == Get(q)
    {
      var idx := FromCoord(width, height, p);
      var r := Grid(width, height, tiles[idx := t],
                    if t == Empty then Insert(free, idx) else Erase(free, idx));
      forall q | IsLegal(width, height, q) && q != p
        ensures r.tiles[FromCoord(width, height, q)] == tiles[FromCoord(width, height, q)]
      {
        if FromCoord(width, height, q) == idx {
          FromCoordInjective(width, height, p, q);
        }
      }
      r
    }

    /** `is_full`: the free set is empty, which is the case exactly when no
        cell of the grid is empty. */
    function IsFull(): (full: bool)
      requires Valid()
      ensures full <==> forall idx :: 0 <= idx < |tiles| ==> tiles[idx] != Empty
    {
      assert free != [] ==> free[0] in free;
      |free| == 0
    }

    /** `find_empty`: nothing when the grid is full, otherwise the point of
        the free index at the position `rng(0, size)` picks, which is a legal
        empty point. */
    function FindEmpty(rng: (nat, nat) -> nat): (r: Option<Point>)
      requires Valid()
      requires |free| > 0 ==> rng(0, |free|) < |free|
      ensures r.None? <==> IsFull()
      ensures r.Some? ==> IsLegal(width, height, r.value) && Get(r.value) == Empty
    {
      if IsFull() then None
      else
        var idx := free[rng(0, |free|)];
        assert idx in free;
        Some(ToCoord(width, height, idx))
    }

    /** Every empty point is the answer of `FindEmpty` for some in-range
        choice of the random source. */
    lemma FindEmptyReachesEveryEmptyCell(p: Point)
      requires Valid() && IsLegal(width, height, p) && Get(p) == Empty
      ensures exists rng: (nat, nat) -> nat ::
                rng(0, |free|) < |free| && FindEmpty(rng) == Some(p)
    {
      var idx := FromCoord(width, height, p);
      var k :| 0 <= k < |free| && free[k] == idx;
      var rng := (lo: nat, hi: nat) => k;
      CoordRoundTrip(width, height, p);
      assert rng(0, |free|) < |free| && FindEmpty(rng) == Some(p);
    }
  }

  /** The sequence `0, 1, ..., n - 1`. */
  function Indices(n: nat): seq<nat> {
    seq(n, k => k)
  }

  /** `Indices(n)` holds exactly the indices below `n`, each once. */
  lemma AllIndices(n: nat)
    ensures NoDuplicates(Indices(n))
    ensures forall idx: nat :: idx in Indices(n) <==> idx < n
  {
    var s := Indices(n);
    forall idx: nat | idx in s
      ensures idx < n
    {
      var k :| 0 <= k < n && s[k] == idx;
    }
    forall idx: nat | idx < n
      ensures idx in s
    {
      assert s[idx] == idx;
    }
  }

  /** Inserting the next index extends the run of indices by one. */
  lemma IndicesGrow(n: nat)
    ensures NoDuplicates(Indices(n))
    ensures Insert(Indices(n), n) == Indices(n + 1)
  {
    AllIndices(n);
    assert n !in Indices(n);
    assert Indices(n) + [n] == Indices(n + 1);
  }

  /** The field the constructor builds: every cell empty, every index free. */
  function EmptyGrid(width: Size, height: Size): (g: Grid)
    requires width * height <= SIZE_MAX
    ensures g.Valid() && g.width == width && g.height == height
    ensures forall p :: IsLegal(width, height, p) ==> g.Get(p) == Empty
  {
    var n := width * height;
    AllIndices(n);
    Grid(width, height, seq(n, _ => Empty), Indices(n))
  }

  /** The grid after putting `t` at each of `ps` in turn. */
  function PutAll(g: Grid, ps: seq<Point>, t: Tile): (r: Grid)
    requires g.Valid() && forall p :: p in ps ==> IsLegal(g.width, g.height, p)
    ensures r.Valid() && r.width == g.width && r.height == g.height
    decreases |ps|
  {
    if ps == [] then g else PutAll(g.Put(ps[0], t), ps[1..], t)
  }

  /** After putting `t` at each of `ps`, exactly those points read `t` and
      the others read as before. */
  lemma {:induction false} PutAllTiles(g: Grid, ps: seq<Point>, t: Tile, q: Point)
    requires g.Valid() && forall p :: p in ps ==> IsLegal(g.width, g.height, p)
    requires IsLegal(g.width, g.height, q)
    ensures PutAll(g, ps, t).Get(q) == if q in ps then t else g.Get(q)
    decreases |ps|
  {
    if ps != [] {
      PutAllTiles(g.Put(ps[0], t), ps[1..], t, q);
      assert q in ps <==> q == ps[0] || q in ps[1..];
    }
  }

  /** The playing-field object of the source: `data` is the tile vector,
      whose size never changes, and `freeSpots` the free-index set, both
      updated in place by `Put`. */
  class PlayingField {
    const width: Size
    const height: Size
    const data: array<Tile>
    var freeSpots: seq<nat>

    /** The grid value the object currently holds. */
    ghost function Model(): Grid
      reads this, data
    {
      Grid(width, height, data[..], freeSpots)
    }

    ghost predicate Valid()
      reads this, data
    {
      Model().Valid()
    }

    /** Every cell starts empty and every index starts free. */
    constructor (width: Size, height: Size)
      requires width * height <= SIZE_MAX
      ensures Valid() && fresh(data)
      ensures Model() == EmptyGrid(width, height)
    {
      this.width := width;
      this.height := height;
      var n := width * height;
      data := new Tile[n](_ => Empty);
      freeSpots := [];
      new;
      assert data[..] == seq(n, _ => Empty);
      var i := 0;
      while i < n
        invariant 0 <= i <= n
        invariant freeSpots == Indices(i)
        invariant data[..] == seq(n, _ => Empty)
      {
        IndicesGrow(i);
        freeSpots := Insert(freeSpots, i);
        i := i + 1;
      }
      assert Model() == EmptyGrid(width, height);
    }

    function Get(p: Point): (t: Tile)
      reads this, data
      requires Valid() && IsLegal(width, height, p)
      ensures t == Model().Get(p)
    {
      data[FromCoord(width, height, p)]
    }

    function IsFull(): (full: bool)
      reads this, data
      requires Valid()
      ensures full == Model().IsFull()
    {
      |freeSpots| == 0
    }

    function FindEmpty(rng: (nat, nat) -> nat): (r: Option<Point>)
      reads this, data
      requires Valid()
      requires |freeSpots| > 0 ==> rng(0, |freeSpots|) < |freeSpots|
      ensures r == Model().FindEmpty(rng)
    {
      if IsFull() then None
      else
        var idx := freeSpots[rng(0, |freeSpots|)];
        assert idx in freeSpots;
        Some(ToCoord(width, height, idx))
    }

    method Put(p: Point, t: Tile)
      requires Valid() && IsLegal(width, height, p)
      modifies this, data
      ensures Valid()
      ensures Model() == old(Model()).Put(p, t)
    {
      var idx := FromCoord(width, height, p);
      data[idx] := t;
      if t == Empty {
        freeSpots := Insert(freeSpots, idx);
      } else {
        freeSpots := Erase(freeSpots, idx);
      }
    }
  }
}
