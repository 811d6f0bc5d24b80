/** The B3/S23 rule on a toroidal grid of bytes (1 = alive), defined cell by
    cell over the whole grid: the reference that update is measured against. */
module Life {
  import opened Torus

  /** A cell buffer entry (u8 in the source). */
  type Byte = b: int | 0 <= b < 256

  /** The source treats exactly the value 1 as alive. */
  function Alive(b: Byte): (n: nat)
    ensures n <= 1 && (n == 1 <==> b == 1)
  {
    if b == 1 then 1 else 0
  }

  /** An all-dead buffer of n cells (the source's `resize(n, 0)`). */
  function Zeros(n: nat): (z: seq<Byte>)
    ensures |z| == n && forall i | 0 <= i < n :: z[i] == 0
  {
    seq(n, _ => 0)
  }

  /** The number of live cells among the first k cells of the 3x3 block
      around (x, y), the centre (x, y) itself not counted. */
  function LiveAmong(g: seq<Byte>, w: nat, h: nat, x: nat, y: nat, k: nat): (n: nat)
    requires 0 < w && 0 < h && |g| == w * h && k <= 9
    ensures n <= if 4 < k then k - 1 else k
  {
    if k == 0 then 0
    else if k == 5 then LiveAmong(g, w, h, x, y, 4)
    else LiveAmong(g, w, h, x, y, k - 1) + Alive(g[BlockCell(w, h, x, y, k - 1)])
  }

  /** The number of live cells among the eight toroidal neighbours of (x, y). */
  function LiveNeighbours(g: seq<Byte>, w: nat, h: nat, x: nat, y: nat): (n: nat)
    requires 0 < w && 0 < h && |g| == w * h
    ensures n <= 8
  {
    LiveAmong(g, w, h, x, y, 9)
  }

  /** The rule as update applies it: 1 on a count of 3, or on a count of 2 for a live cell. */
  function NextState(alive: bool, n: nat): (r: Byte)
    ensures r == 0 || r == 1
    ensures alive ==> (r == 1 <==> n == 2 || n == 3)
    ensures !alive ==> (r == 1 <==> n == 3)
  {
    if n == 3 then 1 else if n == 2 && alive then 1 else 0
  }

  /** The next state of the cell stored at index i. */
  function NextAt(g: seq<Byte>, w: nat, h: nat, i: nat): (r: Byte)
    requires |g| == w * h && i < w * h
    ensures r == 0 || r == 1
  {
    IdxRoundTrip(w, h, i);
    NextState(g[i] == 1, LiveNeighbours(g, w, h, i % w, i / w))
  }

  /** One full generation of the whole toroidal grid, every cell computed from g. */
  function LifeStep(g: seq<Byte>, w: nat, h: nat): (r: seq<Byte>)
    requires |g| == w * h
    ensures |r| == w * h
  {
    seq(w * h, i requires 0 <= i < w * h => NextAt(g, w, h, i))
  }

  /** The running count of update's double loop: live cells among the first k
      cells of the listed block n. */
  function Tally(g: seq<Byte>, n: seq<nat>, k: nat): (c: nat)
    requires k <= |n| && forall j | 0 <= j < |n| :: n[j] < |g|
    ensures c <= k
  {
    if k == 0 then 0 else Tally(g, n, k - 1) + Alive(g[n[k - 1]])
  }

  /** Counting the first k cells of the block counts the first k neighbours,
      plus the centre once it is reached. */
  lemma {:induction false} TallyLive(g: seq<Byte>, w: nat, h: nat, x: nat, y: nat, k: nat)
    requires 0 < w && 0 < h && |g| == w * h && k <= 9
    ensures forall j | 0 <= j < 9 :: Neighbours(w, h, x, y)[j] < |g|
    ensures Tally(g, Neighbours(w, h, x, y), k)
         == LiveAmong(g, w, h, x, y, k) + if 4 < k then Alive(g[BlockCell(w, h, x, y, 4)]) else 0
  {
    if k > 0 {
      TallyLive(g, w, h, x, y, k - 1);
    }
  }

  /** Counting the whole block and taking the centre away leaves the eight-neighbour count. */
  lemma TallyBlock(g: seq<Byte>, w: nat, h: nat, x: nat, y: nat)
    requires x < w && y < h && |g| == w * h
    ensures Coord2Idx(w, x, y) < |g|
    ensures forall j | 0 <= j < 9 :: Neighbours(w, h, x, y)[j] < |g|
    ensures Tally(g, Neighbours(w, h, x, y), 9) == LiveNeighbours(g, w, h, x, y) + Alive(g[Coord2Idx(w, x, y)])
  {
    TallyLive(g, w, h, x, y, 9);
    BlockCentre(w, h, x, y);
  }

  /** update's verdict for the cell at index i, from the count of its whole
      block with the cell itself taken away, is the cell's next generation. */
  lemma BlockRule(g: seq<Byte>, w: nat, h: nat, i: nat, x: nat, y: nat)
    requires |g| == w * h && i < w * h && x == i % w && y == i / w
    ensures x < w && y < h && Coord2Idx(w, x, y) == i
    ensures forall j | 0 <= j < 9 :: Neighbours(w, h, x, y)[j] < |g|
    ensures Tally(g, Neighbours(w, h, x, y), 9) >= Alive(g[i])
    ensures LifeStep(g, w, h)[i] == NextState(g[i] == 1, Tally(g, Neighbours(w, h, x, y), 9) - Alive(g[i]))
  {
    IdxRoundTrip(w, h, i);
    TallyBlock(g, w, h, x, y);
  }

  /** Two grids that agree on the block around (x, y) have the same count of
      live neighbours there. */
  lemma {:induction false} LiveAmongAgree(g: seq<Byte>, g': seq<Byte>, w: nat, h: nat, x: nat, y: nat, k: nat)
    requires 0 < w && 0 < h && |g| == w * h && |g'| == w * h && k <= 9
    requires forall j | j in Neighbours(w, h, x, y) :: g[j] == g'[j]
    ensures LiveAmong(g, w, h, x, y, k) == LiveAmong(g', w, h, x, y, k)
  {
    if k > 0 {
      LiveAmongAgree(g, g', w, h, x, y, k - 1);
      assert Neighbours(w, h, x, y)[k - 1] in Neighbours(w, h, x, y);
    }
  }

  /** The next state of a cell depends only on its 3x3 block. */
  lemma Locality(g: seq<Byte>, g': seq<Byte>, w: nat, h: nat, i: nat)
    requires |g| == w * h && |g'| == w * h && i < w * h
    requires forall j | j in Around(w, h, i) :: g[j] == g'[j]
    ensures LifeStep(g, w, h)[i] == LifeStep(g', w, h)[i]
  {
    AroundHasCentre(w, h, i);
    IdxRoundTrip(w, h, i);
    LiveAmongAgree(g, g', w, h, i % w, i / w, 9);
  }

  /** No live cell, hence no live neighbour, among the first k cells of a block. */
  lemma {:induction false} DeadCount(w: nat, h: nat, x: nat, y: nat, k: nat)
    requires 0 < w && 0 < h && k <= 9
    ensures LiveAmong(Zeros(w * h), w, h, x, y, k) == 0
  {
    if k > 0 {
      DeadCount(w, h, x, y, k - 1);
    }
  }

  /** No spontaneous births: an all-dead grid stays all dead. */
  lemma DeadStaysDead(w: nat, h: nat)
    ensures LifeStep(Zeros(w * h), w, h) == Zeros(w * h)
  {
    var z := Zeros(w * h);
    forall i | 0 <= i < w * h ensures LifeStep(z, w, h)[i] == 0 {
      IdxRoundTrip(w, h, i);
      DeadCount(w, h, i % w, i / w, 9);
    }
  }
}
