/** Row-major addressing on a w-by-h grid and the toroidal 3x3 neighbourhood
    of a cell (Internal::coord2idx, Internal::idx2coord, and the cells that
    Internal::append_near and update visit).

    The block appears in five forms, each for one kind of reader: CellIdx is
    one wrapped cell for any integer offset; BlockCell numbers the nine cells
    0..8; Neighbours is the nine-entry sequence around (x, y) that the
    reference rule and the active set use; Around is the same block addressed
    by a grid index; BlockListed states, entry by entry, the index the source's
    loops compute with the offsets [n - 1, 0, 1], so that the engine's loops
    can be checked against it without unfolding the other four. */
module Torus {

  /** Euclidean division is determined by any quotient/remainder pair. */
  lemma DivModUnique(n: int, d: int, q: int, r: int)
    requires 0 < d && 0 <= r < d && n == q * d + r
    ensures n / d == q && n % d == r
  {
    var q0, r0 := n / d, n % d;
    assert (q - q0) * d == r0 - r;
    MulStep(q - q0, d);
  }

  /** A non-zero multiple of d is at least d away from zero. */
  lemma MulStep(k: int, d: int)
    requires 0 < d
    ensures 1 <= k ==> d <= k * d
    ensures k <= -1 ==> k * d <= -d
  {
    if 1 <= k {
      assert k * d == (k - 1) * d + d;
    } else if k <= -1 {
      assert k * d == (k + 1) * d - d;
    }
  }

  /** Adding b before or after reducing a modulo d gives the same residue. */
  lemma ModAdd(a: int, b: int, d: int)
    requires 0 < d
    ensures (a % d + b) % d == (a + b) % d
  {
    var q1, q0 := (a + b) / d, a / d;
    assert a + b == q1 * d + (a + b) % d;
    assert a == q0 * d + a % d;
    assert a % d + b == (q1 - q0) * d + (a + b) % d by {
      assert (q1 - q0) * d == q1 * d - q0 * d;
    }
    DivModUnique(a % d + b, d, q1 - q0, (a + b) % d);
  }

  /** A value already in [0, d) is its own residue. */
  lemma ModSmall(a: int, d: int)
    requires 0 <= a < d
    ensures a % d == a && a / d == 0
  {
    DivModUnique(a, d, 0, a);
  }

  /** coord2idx: y * w + x. */
  function Coord2Idx(w: nat, x: nat, y: nat): nat
  {
    y * w + x
  }

  /** idx2coord: (i % w, i / w); the source divides by w, so w must be positive. */
  function Idx2Coord(w: nat, i: nat): (c: (nat, nat))
    requires 0 < w
    ensures c.0 < w
  {
    (i % w, i / w)
  }

  lemma {:induction false} CoordRoundTrip(w: nat, h: nat, x: nat, y: nat)
    requires x < w && y < h
    ensures Coord2Idx(w, x, y) < w * h
    ensures Idx2Coord(w, Coord2Idx(w, x, y)) == (x, y)
  {
    var d: nat := h - y - 1;
    assert h * w == y * w + w + d * w;
    DivModUnique(y * w + x, w, y, x);
  }

  lemma {:induction false} IdxRoundTrip(w: nat, h: nat, i: nat)
    requires i < w * h
    ensures 0 < w && 0 < h
    ensures Idx2Coord(w, i).0 < w && Idx2Coord(w, i).1 < h
    ensures Coord2Idx(w, Idx2Coord(w, i).0, Idx2Coord(w, i).1) == i
  {
    var q, r := i / w, i % w;
    assert i == q * w + r;
  }

  /** a * b as repeated addition. CellIdx multiplies through it, so that a
      proof about a block of cells sees no product until MulIsProduct is called. */
  function Mul(a: nat, b: nat): nat
  {
    if a == 0 then 0 else Mul(a - 1, b) + b
  }

  lemma {:induction false} MulIsProduct(a: nat, b: nat)
    ensures Mul(a, b) == a * b
  {
    if a != 0 {
      MulIsProduct(a - 1, b);
      assert (a - 1) * b + b == a * b;
    }
  }

  /** a reduced into [0, n) by adding or subtracting n; WrapIsMod says it is a % n. */
  function Wrap(a: int, n: nat): (r: nat)
    requires 0 < n
    ensures r < n
    decreases if a < 0 then n - a else a
  {
    if a < 0 then Wrap(a + n, n) else if a < n then a else Wrap(a - n, n)
  }

  lemma {:induction false} WrapIsMod(a: int, n: nat)
    requires 0 < n
    ensures Wrap(a, n) == a % n
    decreases if a < 0 then n - a else a
  {
    if a < 0 {
      WrapIsMod(a + n, n);
      var q := (a + n) / n;
      assert (q - 1) * n == q * n - n;
      DivModUnique(a, n, q - 1, (a + n) % n);
    } else if a < n {
      ModSmall(a, n);
    } else {
      WrapIsMod(a - n, n);
      var q := (a - n) / n;
      assert (q + 1) * n == q * n + n;
      DivModUnique(a, n, q + 1, (a - n) % n);
    }
  }

  /** The index of the toroidal cell (x mod w, y mod h), for any integer x and y. */
  function CellIdx(w: nat, h: nat, x: int, y: int): (i: nat)
    requires 0 < w && 0 < h
    ensures i < w * h
  {
    MulIsProduct(Wrap(y, h), w);
    CoordRoundTrip(w, h, Wrap(x, w), Wrap(y, h));
    Mul(Wrap(y, h), w) + Wrap(x, w)
  }

  /** CellIdx is coord2idx applied to the reduced coordinates. */
  lemma CellIdxCoord(w: nat, h: nat, x: int, y: int)
    requires 0 < w && 0 < h
    ensures CellIdx(w, h, x, y) == Coord2Idx(w, x % w, y % h)
  {
    WrapIsMod(x, w);
    WrapIsMod(y, h);
    MulIsProduct(Wrap(y, h), w);
  }

  /** Cell k of the 3x3 toroidal block centred on (x, y), counting rows top
      to bottom and cells left to right: offset (k % 3 - 1, k / 3 - 1). */
  function BlockCell(w: nat, h: nat, x: nat, y: nat, k: nat): (i: nat)
    requires 0 < w && 0 < h && k < 9
    ensures i < w * h
  {
    CellIdx(w, h, x + k % 3 - 1, y + k / 3 - 1)
  }

  /** The 3x3 toroidal block centred on (x, y), in the order in which
      append_near and update visit it. */
  function Neighbours(w: nat, h: nat, x: nat, y: nat): (n: seq<nat>)
    requires 0 < w && 0 < h
    ensures |n| == 9
  {
    seq(9, k requires 0 <= k < 9 => BlockCell(w, h, x, y, k))
  }

  /** The neighbourhood of the cell stored at index i. */
  function Around(w: nat, h: nat, i: nat): (n: seq<nat>)
    requires i < w * h
    ensures |n| == 9
  {
    IdxRoundTrip(w, h, i);
    Neighbours(w, h, i % w, i / w)
  }

  /** The offsets the source adds before reducing: [n - 1, 0, 1] stands for -1, 0, +1. */
  function Offsets(n: nat): seq<nat>
    requires 0 < n
  {
    [n - 1, 0, 1]
  }

  /** Adding n - 1 and reducing modulo n steps one cell back. */
  lemma {:induction false} OffsetWraps(a: nat, n: nat, k: nat)
    requires 0 < n && k < 3
    ensures (a + Offsets(n)[k]) % n == (a + k - 1) % n
  {
    if k == 0 {
      ModAdd(n, a - 1, n);
      DivModUnique(n, n, 1, 0);
    }
  }

  /** Entry 3*a + b of the neighbourhood is the cell append_near and update
      reach with the a-th vertical and the b-th horizontal offset. */
  lemma {:induction false} NeighbourAt(w: nat, h: nat, x: nat, y: nat, a: nat, b: nat)
    requires 0 < w && 0 < h && a < 3 && b < 3
    ensures (x + Offsets(w)[b]) % w < w && (y + Offsets(h)[a]) % h < h
    ensures Coord2Idx(w, (x + Offsets(w)[b]) % w, (y + Offsets(h)[a]) % h) < w * h
    ensures Neighbours(w, h, x, y)[3 * a + b]
         == Coord2Idx(w, (x + Offsets(w)[b]) % w, (y + Offsets(h)[a]) % h)
  {
    OffsetWraps(x, w, b);
    OffsetWraps(y, h, a);
    assert Neighbours(w, h, x, y)[3 * a + b] == CellIdx(w, h, x + b - 1, y + a - 1);
    CellIdxCoord(w, h, x + b - 1, y + a - 1);
  }

  /** The centre of the block around an on-grid (x, y) is (x, y) itself. */
  lemma BlockCentre(w: nat, h: nat, x: nat, y: nat)
    requires x < w && y < h
    ensures BlockCell(w, h, x, y, 4) == Coord2Idx(w, x, y)
  {
    ModSmall(x, w);
    ModSmall(y, h);
    CellIdxCoord(w, h, x, y);
  }

  /** nb lists the block around (x, y) the way append_near and update walk
      it: entry 3 * a + b is the grid index reached with the a-th vertical and
      the b-th horizontal offset, each coordinate reduced modulo the grid size. */
  ghost predicate BlockListed(nb: seq<nat>, w: nat, h: nat, x: nat, y: nat)
  {
    0 < w && 0 < h && |nb| == 9 && (forall j | 0 <= j < 9 :: nb[j] < w * h) &&
    forall a, b | 0 <= a < 3 && 0 <= b < 3 ::
      nb[3 * a + b] == Coord2Idx(w, (x + Offsets(w)[b]) % w, (y + Offsets(h)[a]) % h)
  }

  /** The neighbourhood is the block append_near and update walk. */
  lemma ListedBlock(w: nat, h: nat, x: nat, y: nat)
    requires 0 < w && 0 < h
    ensures BlockListed(Neighbours(w, h, x, y), w, h, x, y)
  {
    forall a, b | 0 <= a < 3 && 0 <= b < 3
      ensures Neighbours(w, h, x, y)[3 * a + b] == Coord2Idx(w, (x + Offsets(w)[b]) % w, (y + Offsets(h)[a]) % h)
    {
      NeighbourAt(w, h, x, y, a, b);
    }
  }

  /** The centre of the block at index i is i itself. */
  lemma AroundHasCentre(w: nat, h: nat, i: nat)
    requires i < w * h
    ensures Around(w, h, i)[4] == i && i in Around(w, h, i)
  {
    IdxRoundTrip(w, h, i);
    CellIdxCoord(w, h, i % w, i / w);
    ModSmall(i % w, w);
    ModSmall(i / w, h);
  }

  /** Every entry of a neighbourhood is a grid index. */
  lemma AroundInRange(w: nat, h: nat, i: nat)
    requires i < w * h
    ensures forall j | j in Around(w, h, i) :: j < w * h
  {
    IdxRoundTrip(w, h, i);
  }

  /** Stepping by (dx, dy) and back by (-dx, -dy) returns to the start. */
  lemma {:induction false} WrapBack(w: nat, h: nat, x: nat, y: nat, dx: int, dy: int, a: int, b: int)
    requires x < w && y < h
    requires a == CellIdx(w, h, x + dx, y + dy) % w && b == CellIdx(w, h, x + dx, y + dy) / w
    ensures CellIdx(w, h, a - dx, b - dy) == Coord2Idx(w, x, y)
  {
    var j := CellIdx(w, h, x + dx, y + dy);
    CellIdxCoord(w, h, x + dx, y + dy);
    CellIdxCoord(w, h, a - dx, b - dy);
    CoordRoundTrip(w, h, (x + dx) % w, (y + dy) % h);
    ModAdd(x + dx, -dx, w);
    ModAdd(y + dy, -dy, h);
    ModSmall(x, w);
    ModSmall(y, h);
  }

  /** Entry 3 * a + b of the block around (x, y) is the cell (x + b - 1, y + a - 1). */
  lemma NeighbourEntry(w: nat, h: nat, x: nat, y: nat, a: nat, b: nat)
    requires 0 < w && 0 < h && a < 3 && b < 3
    ensures Neighbours(w, h, x, y)[3 * a + b] == CellIdx(w, h, x + (b - 1), y + (a - 1))
  {
  }

  /** Every cell one step away from (x, y), diagonals included, is in its block. */
  lemma InBlock(w: nat, h: nat, x: nat, y: nat, dx: int, dy: int)
    requires 0 < w && 0 < h && -1 <= dx <= 1 && -1 <= dy <= 1
    ensures CellIdx(w, h, x - dx, y - dy) in Neighbours(w, h, x, y)
  {
    NeighbourEntry(w, h, x, y, 1 - dy, 1 - dx);
  }

  /** Neighbourhood is a symmetric relation: j is next to i iff i is next to j. */
  lemma {:induction false} Symmetric(w: nat, h: nat, i: nat, j: nat)
    requires i < w * h && j < w * h
    requires j in Around(w, h, i)
    ensures i in Around(w, h, j)
  {
    IdxRoundTrip(w, h, i);
    var k :| 0 <= k < 9 && Around(w, h, i)[k] == j;
    var x, y := Idx2Coord(w, i).0, Idx2Coord(w, i).1;
    var dx: int, dy: int := k % 3 - 1, k / 3 - 1;
    NeighbourEntry(w, h, x, y, k / 3, k % 3);
    assert j == CellIdx(w, h, x + dx, y + dy);
    IdxRoundTrip(w, h, j);
    var a, b := Idx2Coord(w, j).0, Idx2Coord(w, j).1;
    WrapBack(w, h, x, y, dx, dy, a, b);
    InBlock(w, h, a, b, dx, dy);
  }
}
