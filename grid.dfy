/**
 * The fixed 32 x 32 grid of `common/src/lib.rs`: the cell kinds, the size
 * constants, the row-major index arithmetic (`get_index`, `get_coords`), the
 * 4-neighbourhood used by spreading (`get_neighbours`) and a counting function
 * that the counters of a universe are specified against.
 */
module Grid {
  import opened Wrappers

  datatype Cell = Empty | Neutral | Red | Blue

  const WIDTH: nat := 32
  const HEIGHT: nat := 32
  const N_NEUTRAL_BLOCKS: nat := 50
  /** Number of cells of every universe. */
  const SIZE: nat := WIDTH * HEIGHT

  /** Coordinates are `(x, y)` = (column, row), as `usize` values. */
  type Coords = (nat, nat)

  /** The linear position `x + y * width` that `get_index` computes. */
  function Index(width: nat, c: Coords): nat
  {
    c.0 + c.1 * width
  }

  /**
   * `get_index`: the bound test is `out > len`, so `out == len` is accepted
   * although it names no cell.
   */
  function GetIndex(width: nat, len: nat, c: Coords): (r: Result<nat>)
    ensures r.Ok? <==> c.0 + c.1 * width <= len
    ensures r.Ok? ==> r.value == c.0 + c.1 * width
  {
    if Index(width, c) > len then Err else Ok(Index(width, c))
  }

  /** `get_coords`: the column is taken modulo the width, the row divides by the height. */
  function GetCoords(width: nat, height: nat, idx: nat): (r: Coords)
    requires width > 0 && height > 0
    ensures r.0 < width
    ensures width == height ==> r.0 + r.1 * width == idx
  {
    (idx % width, idx / height)
  }

  /** Euclidean division of `x + y * w` by `w` recovers `y` and `x` when `x < w`. */
  lemma DivModOfIndex(w: nat, x: nat, y: nat)
    requires x < w
    ensures (x + y * w) % w == x && (x + y * w) / w == y
  {
    var i := x + y * w;
    var q, r := i / w, i % w;
    assert i == q * w + r;
    assert (q - y) * w == x - r;
    if q - y >= 1 {
      assert false;
    } else if q - y <= -1 {
      assert false;
    }
  }

  /** With a square grid, coordinates inside it survive `get_index` followed by `get_coords`. */
  lemma CoordsOfIndex(width: nat, height: nat, c: Coords)
    requires 0 < width == height && c.0 < width && c.1 < height
    ensures GetIndex(width, width * height, c).Ok?
    ensures GetCoords(width, height, GetIndex(width, width * height, c).value) == c
  {
    DivModOfIndex(width, c.0, c.1);
    MulMono(c.1, height - 1, width);
    assert (height - 1) * width + width == height * width;
  }

  lemma MulMono(a: nat, b: nat, w: nat)
    requires a <= b
    ensures a * w <= b * w
  {
    assert b * w == a * w + (b - a) * w;
  }

  /** With a square grid, every index of a cell survives `get_coords` followed by `get_index`. */
  lemma IndexOfCoords(width: nat, height: nat, idx: nat)
    requires 0 < width == height && idx < width * height
    ensures GetIndex(width, width * height, GetCoords(width, height, idx)) == Ok(idx)
  {
    assert idx == idx % width + (idx / width) * width;
  }

  /** The offsets `(0, 1), (1, 0), (-1, 0), (0, -1)` in the order the source lists them. */
  const DIRECTIONS: seq<(int, int)> := [(0, 1), (1, 0), (-1, 0), (0, -1)]

  /** The `usize as i32` cast: keep the low 32 bits and read them as two's complement. */
  function AsI32(n: nat): (r: int)
    ensures -0x8000_0000 <= r < 0x8000_0000
    ensures n < 0x8000_0000 ==> r == n
  {
    var m := n % 0x1_0000_0000;
    if m < 0x8000_0000 then m else m - 0x1_0000_0000
  }

  /**
   * The filter of `get_neighbours`. Both lower bounds are strict, so column 0
   * and row 0 are never accepted.
   */
  predicate InFilter(v: (int, int))
  {
    v.0 > 0 && v.1 > 0 && v.0 < WIDTH && v.1 < HEIGHT
  }

  function Shift(v: (int, int), d: (int, int)): (int, int)
  {
    (v.0 + d.0, v.1 + d.1)
  }

  /**
   * One stage of the map and filter pipeline of `get_neighbours`: the index
   * of `v` shifted by `d` when the shifted point passes the filter, nothing
   * otherwise. The `unwrap` of the source cannot fail on a universe of the
   * standard size.
   */
  function Pick(v: (int, int), d: (int, int)): (r: seq<nat>)
    ensures |r| <= 1 && forall n :: n in r ==> n < SIZE
  {
    var w := Shift(v, d);
    if InFilter(w) then [GetIndex(WIDTH, SIZE, (w.0 as nat, w.1 as nat)).value] else []
  }

  /** `Pick` yields exactly the index of the shifted point, and only when it passes the filter. */
  lemma PickSpec(v: (int, int), d: (int, int), n: nat)
    ensures n in Pick(v, d) <==>
              InFilter(Shift(v, d)) && n == Index(WIDTH, (Shift(v, d).0 as nat, Shift(v, d).1 as nat))
  {
  }

  /** The pipeline of `get_neighbours` over the directions `ds`, in their order. */
  function Along(v: (int, int), ds: seq<(int, int)>): (r: seq<nat>)
    ensures |r| <= |ds| && forall k :: 0 <= k < |r| ==> r[k] < SIZE
    decreases |ds|
  {
    if ds == [] then [] else Pick(v, ds[0]) + Along(v, ds[1..])
  }

  /** `p` and `q` differ by one step along exactly one axis. */
  predicate Adjacent(p: Coords, q: Coords)
  {
    (p.0 == q.0 && (p.1 == q.1 + 1 || q.1 == p.1 + 1)) ||
    (p.1 == q.1 && (p.0 == q.0 + 1 || q.0 == p.0 + 1))
  }

  /** Coordinates the `as i32` cast leaves unchanged. */
  predicate FitsI32(c: Coords)
  {
    c.0 < 0x8000_0000 && c.1 < 0x8000_0000
  }

  /** What every index produced by `get_neighbours(c)` satisfies. */
  predicate GoodNeighbour(c: Coords, n: nat)
  {
    n < SIZE &&
    GetCoords(WIDTH, HEIGHT, n).0 > 0 && GetCoords(WIDTH, HEIGHT, n).1 > 0 &&
    (FitsI32(c) ==> Adjacent(GetCoords(WIDTH, HEIGHT, n), c))
  }

  lemma PickIsGood(c: Coords, d: (int, int), n: nat)
    requires d in DIRECTIONS && n in Pick((AsI32(c.0), AsI32(c.1)), d)
    ensures GoodNeighbour(c, n)
  {
    var w := Shift((AsI32(c.0), AsI32(c.1)), d);
    PickSpec((AsI32(c.0), AsI32(c.1)), d, n);
    CoordsOfIndex(WIDTH, HEIGHT, (w.0 as nat, w.1 as nat));
  }

  /**
   * `get_neighbours`. It reads the universe's `width` and `len`, which are
   * `WIDTH` and `SIZE` in every universe. The result has at most four
   * indices, each a valid cell index, so the `unwrap` never fails.
   */
  function Neighbours(c: Coords): (r: seq<nat>)
    ensures |r| <= 4 && forall k :: 0 <= k < |r| ==> r[k] < SIZE
  {
    Along((AsI32(c.0), AsI32(c.1)), DIRECTIONS)
  }

  /** The four stages of `get_neighbours`, written out in the source's order. */
  lemma NeighboursUnrolled(c: Coords)
    ensures var v := (AsI32(c.0), AsI32(c.1));
            Neighbours(c) ==
              Pick(v, DIRECTIONS[0]) + Pick(v, DIRECTIONS[1]) +
              Pick(v, DIRECTIONS[2]) + Pick(v, DIRECTIONS[3])
  {
    var v := (AsI32(c.0), AsI32(c.1));
    var ds := DIRECTIONS;
    assert ds[1..][1..][1..][1..] == [];
    assert Along(v, ds[1..][1..][1..]) == Pick(v, ds[3]);
    assert Along(v, ds[1..][1..]) == Pick(v, ds[2]) + Pick(v, ds[3]);
    assert Along(v, ds[1..]) == Pick(v, ds[1]) + (Pick(v, ds[2]) + Pick(v, ds[3]));
  }

  /**
   * No neighbour lies in column 0 or row 0, and each is 4-adjacent to `c`
   * (when the `as i32` cast leaves `c` unchanged).
   */
  lemma NeighboursAreGood(c: Coords, n: nat)
    requires n in Neighbours(c)
    ensures GoodNeighbour(c, n)
  {
    var v := (AsI32(c.0), AsI32(c.1));
    NeighboursUnrolled(c);
    if n in Pick(v, DIRECTIONS[0]) {
      PickIsGood(c, DIRECTIONS[0], n);
    } else if n in Pick(v, DIRECTIONS[1]) {
      PickIsGood(c, DIRECTIONS[1], n);
    } else if n in Pick(v, DIRECTIONS[2]) {
      PickIsGood(c, DIRECTIONS[2], n);
    } else {
      PickIsGood(c, DIRECTIONS[3], n);
    }
  }

  /** An index one of the four stages yields is among the neighbours. */
  lemma PickInNeighbours(c: Coords, k: nat, i: nat)
    requires k < 4 && i in Pick((AsI32(c.0), AsI32(c.1)), DIRECTIONS[k])
    ensures i in Neighbours(c)
  {
    var v := (AsI32(c.0), AsI32(c.1));
    NeighboursUnrolled(c);
    var p0, p1, p2, p3 := Pick(v, DIRECTIONS[0]), Pick(v, DIRECTIONS[1]), Pick(v, DIRECTIONS[2]), Pick(v, DIRECTIONS[3]);
    assert Neighbours(c) == p0 + p1 + p2 + p3;
    if k == 0 {
      assert i in p0;
    } else if k == 1 {
      assert i in p1;
    } else if k == 2 {
      assert i in p2;
    } else {
      assert i in p3;
    }
  }

  /**
   * Conversely, every cell 4-adjacent to `c` that lies off column 0 and row 0
   * is among the neighbours of `c`.
   */
  lemma NeighboursComplete(c: Coords, p: Coords)
    requires FitsI32(c) && 0 < p.0 < WIDTH && 0 < p.1 < HEIGHT && Adjacent(p, c)
    ensures Index(WIDTH, p) in Neighbours(c)
  {
    var v := (AsI32(c.0), AsI32(c.1));
    assert v == (c.0 as int, c.1 as int);
    var k: nat :=
      if p.1 == c.1 + 1 then 0
      else if p.0 == c.0 + 1 then 1
      else if c.0 == p.0 + 1 then 2
      else 3;
    assert Shift(v, DIRECTIONS[k]) == (p.0, p.1);
    PickSpec(v, DIRECTIONS[k], Index(WIDTH, p));
    PickInNeighbours(c, k, Index(WIDTH, p));
  }

  /** Number of cells of kind `c` in `s`. */
  function Count(s: seq<Cell>, c: Cell): nat
  {
    if s == [] then 0 else Count(s[..|s| - 1], c) + (if s[|s| - 1] == c then 1 else 0)
  }

  /** Writing `v` at position `i` moves one cell from the count of `s[i]` to the count of `v`. */
  lemma {:induction false} CountUpdate(s: seq<Cell>, i: nat, v: Cell, c: Cell)
    requires i < |s|
    ensures s[i] == c ==> Count(s, c) >= 1
    ensures Count(s[i := v], c) + (if s[i] == c then 1 else 0) == Count(s, c) + (if v == c then 1 else 0)
    decreases |s|
  {
    var n := |s| - 1;
    if i < n {
      assert s[i := v][..n] == s[..n][i := v];
      CountUpdate(s[..n], i, v, c);
    } else {
      assert s[i := v][..n] == s[..n];
    }
  }

  /** The four counts of a grid add up to its size. */
  lemma {:induction false} CountTotal(s: seq<Cell>)
    ensures Count(s, Empty) + Count(s, Neutral) + Count(s, Red) + Count(s, Blue) == |s|
    decreases |s|
  {
    if s != [] {
      CountTotal(s[..|s| - 1]);
    }
  }

  /** A grid of `n` copies of `v` counts `n` cells of kind `v` and none of any other kind. */
  lemma {:induction false} CountUniform(n: nat, v: Cell, c: Cell)
    ensures Count(seq(n, _ => v), c) == if v == c then n else 0
    decreases n
  {
    if n > 0 {
      assert seq(n, _ => v)[..n - 1] == seq(n - 1, _ => v);
      CountUniform(n - 1, v, c);
    }
  }
}
