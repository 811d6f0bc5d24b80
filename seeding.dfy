/** What init paints: 150 patterns placed with the 32-bit linear congruential
    generator rand, and the invariant the painted grid starts from. */
module Seeding {
  import opened Torus
  import opened Life
  import opened ActiveSet

  const Modulus: nat := 0x1_0000_0000

  /** The source's u32. */
  type U32 = n: int | 0 <= n < 0x1_0000_0000

  function WrappingMul(a: U32, b: U32): U32
  {
    (a * b) % Modulus
  }

  function WrappingAdd(a: U32, b: U32): U32
  {
    (a + b) % Modulus
  }

  /** rand: 1103515245.wrapping_mul(seed).wrapping_add(12345). */
  function Rand(seed: U32): (r: U32)
    ensures r == (1103515245 * seed + 12345) % 0x1_0000_0000
  {
    ModAdd(1103515245 * seed, 12345, Modulus);
    WrappingAdd(WrappingMul(1103515245, seed), 12345)
  }

  /** The glider init stamps, as (dx, dy) offsets from its anchor: five
      cells inside a 3x3 box. */
  function Glider(): (pat: seq<(nat, nat)>)
    ensures |pat| == 5 && SmallPattern(pat)
  {
    [(1, 0), (2, 1), (0, 2), (1, 2), (2, 2)]
  }

  /** The T-tetromino init stamps: four cells inside a 3x3 box. */
  function Tetromino(): (pat: seq<(nat, nat)>)
    ensures |pat| == 4 && SmallPattern(pat)
  {
    [(1, 0), (0, 1), (1, 1), (2, 1)]
  }

  predicate SmallPattern(pat: seq<(nat, nat)>)
  {
    forall k | 0 <= k < |pat| :: pat[k].0 <= 2 && pat[k].1 <= 2
  }

  /** One placement: two rand calls, x = seed % (w - 8) + 4, y = seed % (h - 8) + 4;
      also returns the advanced seed. */
  function Anchor(seed: U32, w: nat, h: nat): (a: (nat, nat, U32))
    requires 8 < w && 8 < h
    ensures 4 <= a.0 <= w - 5 && 4 <= a.1 <= h - 5
  {
    var s1 := Rand(seed);
    var s2 := Rand(s1);
    (s1 % (w - 8) + 4, s2 % (h - 8) + 4, s2)
  }

  /** The cells one pattern covers at (x, y): (x + dx, y + dy) when plus, else (x - dx, y - dy). */
  function Stamp(x: nat, y: nat, pat: seq<(nat, nat)>, plus: bool): (cs: seq<(nat, nat)>)
    requires 2 <= x && 2 <= y && SmallPattern(pat)
    ensures |cs| == |pat|
    ensures forall k | 0 <= k < |cs| :: x <= cs[k].0 + 2 && cs[k].0 <= x + 2 && y <= cs[k].1 + 2 && cs[k].1 <= y + 2
  {
    seq(|pat|, k requires 0 <= k < |pat| =>
      if plus then (x + pat[k].0, y + pat[k].1) else (x - pat[k].0, y - pat[k].1))
  }

  /** n iterations of one of init's loops: the cells painted and the final seed. */
  function Scattered(seed: U32, n: nat, w: nat, h: nat, pat: seq<(nat, nat)>, plus: bool): (r: (seq<(nat, nat)>, U32))
    requires 8 < w && 8 < h && SmallPattern(pat)
    ensures forall k | 0 <= k < |r.0| :: Inside(r.0[k], w, h)
    ensures OnGrid(r.0, w, h)
  {
    if n == 0 then ([], seed)
    else
      var (cs, s) := Scattered(seed, n - 1, w, h, pat, plus);
      var (x, y, s') := Anchor(s, w, h);
      (cs + Stamp(x, y, pat, plus), s')
  }

  /** One more placement: the cells and the seed of n + 1 iterations, and the
      painting and listing of those cells, continue those of n iterations. */
  lemma ScatterStep(g: seq<Byte>, l: seq<nat>, seed: U32, n: nat, w: nat, h: nat, pat: seq<(nat, nat)>, plus: bool,
                    cells: seq<(nat, nat)>, s: U32, x: nat, y: nat, s': U32)
    requires 8 < w && 8 < h && SmallPattern(pat) && |g| == w * h
    requires (cells, s) == Scattered(seed, n, w, h, pat, plus) && (x, y, s') == Anchor(s, w, h)
    ensures 2 <= x && 2 <= y
    ensures Scattered(seed, n + 1, w, h, pat, plus) == (cells + Stamp(x, y, pat, plus), s')
    ensures OnGrid(cells, w, h) && OnGrid(Stamp(x, y, pat, plus), w, h)
    ensures Paint(g, w, h, cells + Stamp(x, y, pat, plus)) == Paint(Paint(g, w, h, cells), w, h, Stamp(x, y, pat, plus))
    ensures MarkAround(l, w, h, cells + Stamp(x, y, pat, plus)) == MarkAround(MarkAround(l, w, h, cells), w, h, Stamp(x, y, pat, plus))
  {
    var st := Stamp(x, y, pat, plus);
    assert OnGrid(st, w, h);
    PaintAppend(g, w, h, cells, st);
    MarkAroundAppend(l, w, h, cells, st);
  }

  /** Every cell init paints, in painting order: 50 gliders drawn forwards,
      50 gliders drawn backwards, 50 tetrominoes drawn backwards. */
  function SeedCells(seed: U32, w: nat, h: nat): (cs: seq<(nat, nat)>)
    requires 8 < w && 8 < h
    ensures forall k | 0 <= k < |cs| :: Inside(cs[k], w, h)
    ensures OnGrid(cs, w, h)
  {
    var p1 := Scattered(seed, 50, w, h, Glider(), true);
    var p2 := Scattered(p1.1, 50, w, h, Glider(), false);
    var p3 := Scattered(p2.1, 50, w, h, Tetromino(), false);
    p1.0 + p2.0 + p3.0
  }

  /** A cell in [2, w - 3] x [2, h - 3]. */
  predicate Inside(c: (nat, nat), w: nat, h: nat)
  {
    2 <= c.0 && c.0 + 3 <= w && 2 <= c.1 && c.1 + 3 <= h
  }

  /** The buffer g with a 1 written at every listed cell, in order. */
  function Paint(g: seq<Byte>, w: nat, h: nat, cs: seq<(nat, nat)>): (p: seq<Byte>)
    requires |g| == w * h && OnGrid(cs, w, h)
    ensures |p| == |g|
    decreases |cs|
  {
    if cs == [] then g
    else
      var last := cs[|cs| - 1];
      CoordRoundTrip(w, h, last.0, last.1);
      Paint(g, w, h, cs[..|cs| - 1])[Coord2Idx(w, last.0, last.1) := 1]
  }

  /** One more listed cell: painting it and listing its block extend the
      painting and the list of the cells before it. */
  lemma PaintMarkStep(g: seq<Byte>, l: seq<nat>, w: nat, h: nat, cs: seq<(nat, nat)>, p: nat, cx: nat, cy: nat)
    requires |g| == w * h && cx < w && cy < h && p < |cs| && cs[p] == (cx, cy) && OnGrid(cs[..p], w, h)
    ensures OnGrid(cs[..p + 1], w, h) && Coord2Idx(w, cx, cy) < w * h
    ensures Paint(g, w, h, cs[..p + 1]) == Paint(g, w, h, cs[..p])[Coord2Idx(w, cx, cy) := 1]
    ensures MarkAround(l, w, h, cs[..p + 1]) == AddNear(MarkAround(l, w, h, cs[..p]), Neighbours(w, h, cx, cy))
  {
    assert cs[..p + 1][..p] == cs[..p];
    CoordRoundTrip(w, h, cx, cy);
  }

  /** Painting a + b is painting a, then b. */
  lemma {:induction false} PaintAppend(g: seq<Byte>, w: nat, h: nat, a: seq<(nat, nat)>, b: seq<(nat, nat)>)
    requires |g| == w * h && OnGrid(a, w, h) && OnGrid(b, w, h)
    ensures OnGrid(a + b, w, h)
    ensures Paint(g, w, h, a + b) == Paint(Paint(g, w, h, a), w, h, b)
    decreases |b|
  {
    if b == [] {
      assert a + b == a;
    } else {
      var b' := b[..|b| - 1];
      assert (a + b)[..|a + b| - 1] == a + b';
      PaintAppend(g, w, h, a, b');
    }
  }

  /** A painted cell is 1 at every listed cell; every other cell keeps g's value. */
  lemma {:induction false} PaintSpec(g: seq<Byte>, w: nat, h: nat, cs: seq<(nat, nat)>, i: nat)
    requires |g| == w * h && OnGrid(cs, w, h) && i < w * h
    ensures Paint(g, w, h, cs)[i] == 1 || Paint(g, w, h, cs)[i] == g[i]
    ensures Paint(g, w, h, cs)[i] != g[i] ==>
              exists k | 0 <= k < |cs| :: Coord2Idx(w, cs[k].0, cs[k].1) == i
    ensures (exists k | 0 <= k < |cs| :: Coord2Idx(w, cs[k].0, cs[k].1) == i) ==> Paint(g, w, h, cs)[i] == 1
    decreases |cs|
  {
    if cs != [] {
      var cs' := cs[..|cs| - 1];
      PaintSpec(g, w, h, cs', i);
      if exists k | 0 <= k < |cs| :: Coord2Idx(w, cs[k].0, cs[k].1) == i {
        var k :| 0 <= k < |cs| && Coord2Idx(w, cs[k].0, cs[k].1) == i;
        if k < |cs'| {
          assert cs'[k] == cs[k];
        }
      }
      if Paint(g, w, h, cs)[i] != g[i] && Coord2Idx(w, cs[|cs| - 1].0, cs[|cs| - 1].1) != i {
        var k :| 0 <= k < |cs'| && Coord2Idx(w, cs'[k].0, cs'[k].1) == i;
        assert cs[k] == cs'[k];
      }
    }
  }

  /** Painting an all-dead grid and listing every painted cell's block gives a
      state that satisfies the invariant (the write buffer stays all dead). */
  lemma SeededSound(w: nat, h: nat, cs: seq<(nat, nat)>)
    requires 0 < w && 0 < h && OnGrid(cs, w, h)
    ensures Sound(Paint(Zeros(w * h), w, h, cs), Zeros(w * h), w, h, MarkAround([], w, h, cs))
  {
    var z := Zeros(w * h);
    var p := Paint(z, w, h, cs);
    var l := MarkAround([], w, h, cs);
    MarkAroundSpec([], w, h, cs);
    forall i | 0 <= i < w * h && p[i] != z[i] ensures forall j | j in Around(w, h, i) :: j in l {
      PaintSpec(z, w, h, cs, i);
      var k :| 0 <= k < |cs| && Coord2Idx(w, cs[k].0, cs[k].1) == i;
      CoordRoundTrip(w, h, cs[k].0, cs[k].1);
    }
    DeadStaysDead(w, h);
    forall i | 0 <= i < w * h && i !in l ensures LifeStep(z, w, h)[i] == p[i] {
      PaintSpec(z, w, h, cs, i);
      if p[i] != 0 {
        AroundHasCentre(w, h, i);
      }
    }
    FixedOutside(p, z, w, h, l);
  }
}
