/** The session record Internal and the operations on it: the double-buffered
    grid (field1, field2 and the selector cur), the active set (near_alive and
    near_alive_list), and the exported entry points init, update, click and
    draw, which the source runs on a single global record. */
module Engine {
  import opened Torus
  import opened Life
  import opened ActiveSet
  import opened Seeding
  import opened Pointer

  /** set's bounds check as written: it returns early only when idx > w * h. */
  function SetGuardAsWritten(idx: nat, w: nat, h: nat): (accepts: bool)
    ensures accepts <==> idx <= w * h
  {
    !(idx > w * h)
  }

  /** The evidently intended check: exactly the indices of the buffers. */
  function SetAccepts(idx: nat, w: nat, h: nat): (accepts: bool)
    ensures accepts <==> idx < w * h
    ensures accepts ==> SetGuardAsWritten(idx, w, h)
  {
    idx < w * h
  }

  /** The off-by-one: (0, h) has index w * h, one past the end of the buffers,
      and the written guard lets it through to get, which indexes out of bounds. */
  lemma SetGuardOffByOne(w: nat, h: nat)
    ensures Coord2Idx(w, 0, h) == w * h
    ensures SetGuardAsWritten(Coord2Idx(w, 0, h), w, h)
    ensures !SetAccepts(Coord2Idx(w, 0, h), w, h)
  {
  }

  class Internal {
    var w: nat
    var h: nat
    var field1: array<Byte>
    var field2: array<Byte>
    /** Selects the buffers: 0 reads field2 and writes field1, anything else the other way. */
    var cur: nat
    /** near_alive[i] == 1 exactly when i is in nearAliveList. */
    var nearAlive: array<Byte>
    var nearAliveList: seq<nat>
    var clear: bool

    ghost predicate Valid()
      reads this, nearAlive
    {
      field1.Length == w * h && field2.Length == w * h && nearAlive.Length == w * h &&
      field1 != field2 && nearAlive != field1 && nearAlive != field2 &&
      (cur == 0 || cur == 1) &&
      (forall k | 0 <= k < |nearAliveList| :: nearAliveList[k] < w * h) &&
      NoDup(nearAliveList) &&
      forall i | 0 <= i < w * h :: nearAlive[i] == if i in nearAliveList then 1 else 0
    }

    /** The buffer get reads. */
    ghost function Read(): seq<Byte>
      reads this`cur, this`field1, this`field2, field1, field2
    {
      if cur == 0 then field2[..] else field1[..]
    }

    /** The buffer set writes. */
    ghost function Written(): seq<Byte>
      reads this`cur, this`field1, this`field2, field1, field2
    {
      if cur == 0 then field1[..] else field2[..]
    }

    /** The invariant under which update computes a full generation. */
    ghost predicate Stable()
      reads this, field1, field2
    {
      Sound(Read(), Written(), w, h, nearAliveList)
    }

    /** The record before init: empty buffers, cur = 1, clear = false. */
    constructor ()
      ensures Valid() && w == 0 && h == 0 && cur == 1 && !clear
      ensures nearAliveList == [] && Read() == [] && Written() == []
    {
      w, h := 0, 0;
      field1 := new Byte[0];
      field2 := new Byte[0];
      cur := 1;
      nearAlive := new Byte[0];
      nearAliveList := [];
      clear := false;
    }

    /** get: the value of (x, y) in the read buffer. */
    method Get(x: nat, y: nat) returns (v: Byte)
      requires field1.Length == w * h && field2.Length == w * h && Coord2Idx(w, x, y) < w * h
      ensures v == Read()[Coord2Idx(w, x, y)]
    {
      if cur == 0 {
        v := field2[Coord2Idx(w, x, y)];
      } else {
        v := field1[Coord2Idx(w, x, y)];
      }
    }

    /** toggle: swaps the read and the write buffer. */
    method Toggle()
      requires Valid()
      modifies this`cur
      ensures Valid()
      ensures cur == if old(cur) == 1 then 0 else 1
      ensures Read() == old(Written()) && Written() == old(Read())
    {
      if cur == 1 {
        cur := 0;
      } else {
        cur := 1;
      }
    }

    /** One step of append_near: lists cell idx unless its flag is already raised. */
    method Mark(idx: nat)
      requires Valid() && idx < w * h
      modifies this`nearAliveList, nearAlive
      ensures Valid()
      ensures nearAliveList == if idx in old(nearAliveList) then old(nearAliveList) else old(nearAliveList) + [idx]
    {
      if nearAlive[idx] == 0 {
        nearAlive[idx] := 1;
        nearAliveList := nearAliveList + [idx];
      }
    }

    /** append_near: lists every not yet listed cell of the 3x3 block around
        (x, y), in row order, and raises its flag. The ghost nb names that
        block, as the caller knows it. */
    method AppendNear(x: nat, y: nat, ghost nb: seq<nat>)
      requires Valid() && BlockListed(nb, w, h, x, y)
      modifies this`nearAliveList, nearAlive
      ensures Valid()
      ensures nearAliveList == AddNear(old(nearAliveList), nb)
    {
      for a := 0 to 3
        invariant Valid()
        invariant nearAliveList == AddNear(old(nearAliveList), nb[..3 * a])
      {
        AppendRow(x, y, a, nb, old(nearAliveList));
      }
      assert nb[..9] == nb;
    }

    /** The inner loop of append_near: row a of the block nb around (x, y),
        continuing the list l0 + the rows before. */
    method AppendRow(x: nat, y: nat, a: nat, ghost nb: seq<nat>, ghost l0: seq<nat>)
      requires Valid() && BlockListed(nb, w, h, x, y) && a < 3
      requires nearAliveList == AddNear(l0, nb[..3 * a])
      modifies this`nearAliveList, nearAlive
      ensures Valid()
      ensures nearAliveList == AddNear(l0, nb[..3 * a + 3])
    {
      var dys, dxs := Offsets(h), Offsets(w);
      for b := 0 to 3
        invariant Valid()
        invariant nearAliveList == AddNear(l0, nb[..3 * a + b])
      {
        var idx := Coord2Idx(w, (x + dxs[b]) % w, (y + dys[a]) % h);
        assert nb[3 * a + b] == idx;
        assert nb[..3 * a + b + 1] == nb[..3 * a + b] + [idx];
        Mark(idx);
      }
    }

    /** set: writes val at (x, y) in the write buffer; when val differs from the
        read buffer there, the block around (x, y) is listed first. Uses the
        corrected bounds check (see SetGuardOffByOne). */
    method Set(x: nat, y: nat, val: Byte)
      requires Valid()
      modifies this`nearAliveList, field1, field2, nearAlive
      ensures Valid()
      ensures Read() == old(Read())
      ensures var idx := Coord2Idx(w, x, y);
        if SetAccepts(idx, w, h) then
          0 < w && 0 < h && Written() == old(Written())[idx := val] &&
          nearAliveList == if old(Read())[idx] != val
                           then AddNear(old(nearAliveList), Neighbours(w, h, x, y))
                           else old(nearAliveList)
        else
          Written() == old(Written()) && nearAliveList == old(nearAliveList)
    {
      var idx := Coord2Idx(w, x, y);
      if !SetAccepts(idx, w, h) {
        return;
      }
      var prev := Get(x, y);
      if prev != val {
        ListedBlock(w, h, x, y);
        AppendNear(x, y, Neighbours(w, h, x, y));
      }
      if cur == 0 {
        field1[idx] := val;
      } else {
        field2[idx] := val;
      }
    }
  }

  /** update's double loop for the cell (x, y): the live cells of its 3x3
      block nb, itself included. */
  method CountBlock(data: Internal, x: nat, y: nat, ghost nb: seq<nat>) returns (alive: nat)
    requires data.Valid() && BlockListed(nb, data.w, data.h, x, y)
    ensures alive == Tally(data.Read(), nb, 9)
  {
    alive := 0;
    for a := 0 to 3
      invariant alive == Tally(data.Read(), nb, 3 * a)
    {
      alive := CountRow(data, x, y, a, alive, nb);
    }
  }

  /** The inner loop of update's double loop: row a of the block nb around
      (x, y), with the count so far passed in. */
  method CountRow(data: Internal, x: nat, y: nat, a: nat, alive0: nat, ghost nb: seq<nat>) returns (alive: nat)
    requires data.Valid() && BlockListed(nb, data.w, data.h, x, y) && a < 3
    requires alive0 == Tally(data.Read(), nb, 3 * a)
    ensures alive == Tally(data.Read(), nb, 3 * a + 3)
  {
    ghost var g := data.Read();
    alive := alive0;
    var dys, dxs := Offsets(data.h), Offsets(data.w);
    for b := 0 to 3
      invariant alive == Tally(g, nb, 3 * a + b)
    {
      var cx, cy := (x + dxs[b]) % data.w, (y + dys[a]) % data.h;
      assert nb[3 * a + b] == Coord2Idx(data.w, cx, cy);
      var v := data.Get(cx, cy);
      if v == 1 {
        alive := alive + 1;
      }
    }
  }

  /** The counting half of update's loop body for the listed cell i: its
      coordinates, and the rule's verdict from the count of its block with the
      cell itself dropped. */
  method NextCell(data: Internal, i: nat) returns (x: nat, y: nat, v: Byte)
    requires data.Valid() && i < data.w * data.h
    ensures x == i % data.w && y == i / data.w && x < data.w && y < data.h && Coord2Idx(data.w, x, y) == i
    ensures v == LifeStep(data.Read(), data.w, data.h)[i]
  {
    IdxRoundTrip(data.w, data.h, i);
    x, y := Idx2Coord(data.w, i).0, Idx2Coord(data.w, i).1;
    ListedBlock(data.w, data.h, x, y);
    var alive := CountBlock(data, x, y, Neighbours(data.w, data.h, x, y));
    var cell := data.Get(x, y);
    BlockRule(data.Read(), data.w, data.h, i, x, y);
    if cell == 1 {
      alive := alive - 1;
    }
    if alive == 3 {
      v := 1;
    } else if alive == 2 && cell == 1 {
      v := 1;
    } else {
      v := 0;
    }
  }

  /** update's loop body for the listed cell i: the rule's verdict is set in
      the write buffer, listing the cell's block when the cell changes. */
  method StepCell(data: Internal, i: nat)
    requires data.Valid() && i < data.w * data.h
    modifies data`nearAliveList, data.field1, data.field2, data.nearAlive
    ensures data.Valid() && data.Read() == old(data.Read())
    ensures data.Written() == old(data.Written())[i := LifeStep(old(data.Read()), data.w, data.h)[i]]
    ensures data.nearAliveList == if LifeStep(old(data.Read()), data.w, data.h)[i] != old(data.Read())[i]
                                  then AddNear(old(data.nearAliveList), Around(data.w, data.h, i))
                                  else old(data.nearAliveList)
  {
    var x, y, v := NextCell(data, i);
    data.Set(x, y, v);
  }

  /** update: clears the active set, recomputes each previously listed cell into
      the write buffer (listing the blocks of the cells that change), and swaps
      the buffers. Under the invariant the new read buffer is one full toroidal
      generation of the old one. */
  method Update(data: Internal)
    requires data.Valid()
    modifies data`nearAliveList, data`cur, data.field1, data.field2, data.nearAlive
    ensures data.Valid()
    ensures data.Read() == Patch(old(data.Written()), old(data.Read()), old(data.nearAliveList), data.w, data.h)
    ensures data.Written() == old(data.Read())
    ensures data.nearAliveList == MarkAround([], data.w, data.h, Changed(old(data.nearAliveList), old(data.Read()), data.w, data.h))
    ensures old(data.Stable()) ==> data.Stable() && data.Read() == LifeStep(old(data.Read()), data.w, data.h)
  {
    var nextCpy := data.nearAliveList;
    ghost var r, b := data.Read(), data.Written();
    ClearList(data);
    StepAll(data, nextCpy);
    data.Toggle();
    if Sound(r, b, data.w, data.h, nextCpy) {
      StepSound(r, b, data.w, data.h, nextCpy);
    }
  }

  /** update's loop over its copy l of the list, on an emptied list: every
      cell of l is recomputed into the write buffer, and the blocks of the
      cells that change are listed, in order. */
  method StepAll(data: Internal, l: seq<nat>)
    requires data.Valid() && data.nearAliveList == []
    requires forall k | 0 <= k < |l| :: l[k] < data.w * data.h
    modifies data`nearAliveList, data.field1, data.field2, data.nearAlive
    ensures data.Valid() && data.Read() == old(data.Read())
    ensures data.Written() == Patch(old(data.Written()), old(data.Read()), l, data.w, data.h)
    ensures data.nearAliveList == MarkAround([], data.w, data.h, Changed(l, old(data.Read()), data.w, data.h))
  {
    ghost var r, b := data.Read(), data.Written();
    ghost var w, h := data.w, data.h;
    for k := 0 to |l|
      modifies data`nearAliveList, data.field1, data.field2, data.nearAlive
      invariant data.Valid() && data.Read() == r
      invariant data.Written() == Patched(b, r, l[..k], w, h)
      invariant data.nearAliveList == MarkAround([], w, h, Changed(l[..k], r, w, h))
    {
      StepCell(data, l[k]);
      PrefixStep(b, r, l, w, h, k);
    }
    assert l[..|l|] == l;
    PatchedIsPatch(b, r, l, w, h);
  }

  /** The start of update: every flag lowered and the list emptied. */
  method ClearList(data: Internal)
    requires data.Valid()
    modifies data`nearAliveList, data.nearAlive
    ensures data.Valid() && data.nearAliveList == []
  {
    for k := 0 to data.nearAlive.Length
      invariant forall j | 0 <= j < k :: data.nearAlive[j] == 0
    {
      data.nearAlive[k] := 0;
    }
    data.nearAliveList := [];
  }

  /** One placement: pat stamped at (x, y), each cell set to 1 on an all-dead
      read buffer, so each set lists its block. */
  method Place(data: Internal, x: nat, y: nat, pat: seq<(nat, nat)>, plus: bool)
    requires data.Valid() && SmallPattern(pat)
    requires 4 <= x && x + 5 <= data.w && 4 <= y && y + 5 <= data.h
    requires data.Read() == Zeros(data.w * data.h)
    modifies data`nearAliveList, data.field1, data.field2, data.nearAlive
    ensures data.Valid() && data.Read() == old(data.Read())
    ensures data.Written() == Paint(old(data.Written()), data.w, data.h, Stamp(x, y, pat, plus))
    ensures data.nearAliveList == MarkAround(old(data.nearAliveList), data.w, data.h, Stamp(x, y, pat, plus))
  {
    ghost var w, h := data.w, data.h;
    ghost var g0, l0 := data.Written(), data.nearAliveList;
    ghost var st := Stamp(x, y, pat, plus);
    for p := 0 to |pat|
      invariant data.Valid() && data.Read() == Zeros(w * h)
      invariant OnGrid(st[..p], w, h)
      invariant data.Written() == Paint(g0, w, h, st[..p])
      invariant data.nearAliveList == MarkAround(l0, w, h, st[..p])
    {
      var (dx, dy) := pat[p];
      var cx, cy := if plus then x + dx else x - dx, if plus then y + dy else y - dy;
      assert (cx, cy) == st[p];
      PaintMarkStep(g0, l0, w, h, st, p, cx, cy);
      data.Set(cx, cy, 1);
    }
    assert st[..|pat|] == st;
  }

  /** One of init's three loops: 50 placements of pat. */
  method Scatter(data: Internal, seed: U32, pat: seq<(nat, nat)>, plus: bool) returns (next: U32)
    requires data.Valid() && 8 < data.w && 8 < data.h && SmallPattern(pat)
    requires data.Read() == Zeros(data.w * data.h)
    modifies data`nearAliveList, data.field1, data.field2, data.nearAlive
    ensures data.Valid() && data.Read() == old(data.Read())
    ensures next == Scattered(seed, 50, data.w, data.h, pat, plus).1
    ensures data.Written() == Paint(old(data.Written()), data.w, data.h, Scattered(seed, 50, data.w, data.h, pat, plus).0)
    ensures data.nearAliveList == MarkAround(old(data.nearAliveList), data.w, data.h, Scattered(seed, 50, data.w, data.h, pat, plus).0)
  {
    ghost var w, h := data.w, data.h;
    ghost var g0, l0 := data.Written(), data.nearAliveList;
    next := seed;
    ghost var cells: seq<(nat, nat)> := [];
    for n := 0 to 50
      invariant data.Valid() && data.Read() == Zeros(w * h)
      invariant (cells, next) == Scattered(seed, n, w, h, pat, plus)
      invariant data.Written() == Paint(g0, w, h, cells)
      invariant data.nearAliveList == MarkAround(l0, w, h, cells)
    {
      ghost var s0 := next;
      var x, y;
      x, y, next := PickAnchor(next, data.w, data.h);
      ScatterStep(g0, l0, seed, n, w, h, pat, plus, cells, s0, x, y, next);
      Place(data, x, y, pat, plus);
      cells := cells + Stamp(x, y, pat, plus);
    }
  }

  /** The head of each of init's loops: two rand calls, the anchor drawn from each. */
  method PickAnchor(seed: U32, w: nat, h: nat) returns (x: nat, y: nat, next: U32)
    requires 8 < w && 8 < h
    ensures (x, y, next) == Anchor(seed, w, h)
    ensures 4 <= x <= w - 5 && 4 <= y <= h - 5
  {
    next := Rand(seed);
    x := next % (w - 8) + 4;
    next := Rand(next);
    y := next % (h - 8) + 4;
  }

  method Reset(data: Internal, width: nat, height: nat)
    modifies data
    ensures data.Valid() && data.w == width && data.h == height && data.cur == 0 && data.clear
    ensures fresh(data.field1) && fresh(data.field2) && fresh(data.nearAlive)
    ensures data.Read() == Zeros(width * height) && data.Written() == Zeros(width * height)
    ensures data.nearAliveList == []
  {
    data.w := width;
    data.h := height;
    data.nearAliveList := [];
    data.clear := true;
    data.field1 := new Byte[width * height](_ => 0);
    data.field2 := new Byte[width * height](_ => 0);
    data.nearAlive := new Byte[width * height](_ => 0);
    data.cur := 0;
    assert data.field1[..] == Zeros(width * height);
    assert data.field2[..] == Zeros(width * height);
  }

  /** init's first two loops: 50 gliders drawn forwards, then 50 backwards. */
  method SeedGliders(data: Internal, seed: U32) returns (next: U32)
    requires data.Valid() && 8 < data.w && 8 < data.h
    requires data.Read() == Zeros(data.w * data.h)
    modifies data`nearAliveList, data.field1, data.field2, data.nearAlive
    ensures data.Valid() && data.Read() == old(data.Read())
    ensures next == Scattered(Scattered(seed, 50, data.w, data.h, Glider(), true).1, 50, data.w, data.h, Glider(), false).1
    ensures data.Written() == Paint(Paint(old(data.Written()), data.w, data.h, Scattered(seed, 50, data.w, data.h, Glider(), true).0),
                                    data.w, data.h, Scattered(Scattered(seed, 50, data.w, data.h, Glider(), true).1, 50, data.w, data.h, Glider(), false).0)
    ensures data.nearAliveList == MarkAround(MarkAround(old(data.nearAliveList), data.w, data.h, Scattered(seed, 50, data.w, data.h, Glider(), true).0),
                                             data.w, data.h, Scattered(Scattered(seed, 50, data.w, data.h, Glider(), true).1, 50, data.w, data.h, Glider(), false).0)
  {
    var s1 := Scatter(data, seed, Glider(), true);
    next := Scatter(data, s1, Glider(), false);
  }

  /** init's three loops, on a record whose read buffer is all dead. */
  method SeedAll(data: Internal, seed: U32)
    requires data.Valid() && 8 < data.w && 8 < data.h
    requires data.Read() == Zeros(data.w * data.h)
    modifies data`nearAliveList, data.field1, data.field2, data.nearAlive
    ensures data.Valid() && data.Read() == old(data.Read())
    ensures data.Written() == Paint(old(data.Written()), data.w, data.h, SeedCells(seed, data.w, data.h))
    ensures data.nearAliveList == MarkAround(old(data.nearAliveList), data.w, data.h, SeedCells(seed, data.w, data.h))
  {
    var s2 := SeedGliders(data, seed);
    var s3 := Scatter(data, s2, Tetromino(), false);
    SeedCellsSplit(old(data.Written()), old(data.nearAliveList), seed, data.w, data.h);
  }

  /** SeedCells is the three loops' cells in order, so painting or listing it
      is painting or listing the loops' cells one loop after the other. */
  lemma SeedCellsSplit(g: seq<Byte>, l: seq<nat>, seed: U32, w: nat, h: nat)
    requires 8 < w && 8 < h && |g| == w * h
    ensures var p1 := Scattered(seed, 50, w, h, Glider(), true);
            var p2 := Scattered(p1.1, 50, w, h, Glider(), false);
            var p3 := Scattered(p2.1, 50, w, h, Tetromino(), false);
            Paint(Paint(Paint(g, w, h, p1.0), w, h, p2.0), w, h, p3.0) == Paint(g, w, h, SeedCells(seed, w, h)) &&
            MarkAround(MarkAround(MarkAround(l, w, h, p1.0), w, h, p2.0), w, h, p3.0) == MarkAround(l, w, h, SeedCells(seed, w, h))
  {
    var p1 := Scattered(seed, 50, w, h, Glider(), true);
    var p2 := Scattered(p1.1, 50, w, h, Glider(), false);
    var p3 := Scattered(p2.1, 50, w, h, Tetromino(), false);
    PaintAppend(g, w, h, p1.0, p2.0);
    PaintAppend(g, w, h, p1.0 + p2.0, p3.0);
    MarkAroundAppend(l, w, h, p1.0, p2.0);
    MarkAroundAppend(l, w, h, p1.0 + p2.0, p3.0);
  }

  /** init for a width by height grid (both above 8, w * h within u32): fresh
      all-dead buffers, 150 patterns painted, every painted block listed, and
      the invariant established.

      init's body (lib.rs lines 45-111) is spread over these methods:
      Reset is lines 48-62; Populate is lines 80-110, made of SeedAll (the
      three loops, 80-109: SeedGliders for the first two, then Scatter for the
      third) and Publish (cur = 1, line 110). Scatter is one loop: PickAnchor
      is a loop head (81-84) and Place its inner loop over the pattern
      (86-88). SeedCellsSplit only glues the three loops' cells together. */
  method Init(data: Internal, width: nat, height: nat, seed: U32)
    requires 8 < width && 8 < height && width * height < Modulus
    modifies data
    ensures data.Valid() && data.Stable()
    ensures data.w == width && data.h == height && data.cur == 1 && data.clear
    ensures fresh(data.field1) && fresh(data.field2) && fresh(data.nearAlive)
    ensures data.Read() == Paint(Zeros(width * height), width, height, SeedCells(seed, width, height))
    ensures data.Written() == Zeros(width * height)
    ensures data.nearAliveList == MarkAround([], width, height, SeedCells(seed, width, height))
  {
    Reset(data, width, height);
    Populate(data, seed);
  }

  /** init after its reset: the three loops, then cur = 1. */
  method Populate(data: Internal, seed: U32)
    requires data.Valid() && 8 < data.w && 8 < data.h && data.cur == 0
    requires data.Read() == Zeros(data.w * data.h) && data.Written() == Zeros(data.w * data.h)
    requires data.nearAliveList == []
    modifies data`nearAliveList, data`cur, data.field1, data.field2, data.nearAlive
    ensures data.Valid() && data.Stable() && data.cur == 1
    ensures data.Read() == Paint(Zeros(data.w * data.h), data.w, data.h, SeedCells(seed, data.w, data.h))
    ensures data.Written() == Zeros(data.w * data.h)
    ensures data.nearAliveList == MarkAround([], data.w, data.h, SeedCells(seed, data.w, data.h))
  {
    SeedAll(data, seed);
    Publish(data, SeedCells(seed, data.w, data.h));
  }

  /** init's last step, cur = 1: the painted buffer becomes the read buffer,
      and the painted grid with its listed blocks satisfies the invariant. */
  method Publish(data: Internal, ghost cs: seq<(nat, nat)>)
    requires data.Valid() && data.cur == 0 && 0 < data.w && 0 < data.h && OnGrid(cs, data.w, data.h)
    requires data.Read() == Zeros(data.w * data.h)
    requires data.Written() == Paint(Zeros(data.w * data.h), data.w, data.h, cs)
    requires data.nearAliveList == MarkAround([], data.w, data.h, cs)
    modifies data`cur
    ensures data.Valid() && data.Stable() && data.cur == 1
    ensures data.Read() == old(data.Written()) && data.Written() == old(data.Read())
  {
    data.Toggle();
    SeededSound(data.w, data.h, cs);
  }

  /** click at canvas pixel (px, py) on a cwidth by cheight canvas: forces the
      target cell alive in the read buffer, by toggling, setting and toggling
      back; a click that divides by zero or lands off the grid changes nothing
      (see ClickPastRightEdge). Reports whether a cell was painted. */
  method Click(data: Internal, px: nat, py: nat, cw: nat, ch: nat) returns (painted: bool)
    requires data.Valid()
    modifies data`nearAliveList, data`cur, data.field1, data.field2, data.nearAlive
    ensures data.Valid() && data.cur == old(data.cur)
    ensures painted <==> ClickTarget(px, py, cw, ch, data.w, data.h).Cell?
    ensures !painted ==> data.Read() == old(data.Read()) && data.Written() == old(data.Written())
                         && data.nearAliveList == old(data.nearAliveList)
    ensures painted ==>
              var t := ClickTarget(px, py, cw, ch, data.w, data.h);
              var i := Coord2Idx(data.w, t.x, t.y);
              i < data.w * data.h && 0 < data.w && 0 < data.h &&
              data.Read() == old(data.Read())[i := 1] && data.Written() == old(data.Written()) &&
              data.nearAliveList == if old(data.Written())[i] != 1
                                    then AddNear(old(data.nearAliveList), Neighbours(data.w, data.h, t.x, t.y))
                                    else old(data.nearAliveList)
    ensures old(data.Stable()) ==> data.Stable()
  {
    var t := ClickTarget(px, py, cw, ch, data.w, data.h);
    if !t.Cell? {
      return false;
    }
    CoordRoundTrip(data.w, data.h, t.x, t.y);
    ghost var r, b, l := data.Read(), data.Written(), data.nearAliveList;
    ghost var i := Coord2Idx(data.w, t.x, t.y);
    var current := data.Get(t.x, t.y);
    data.Toggle();
    data.Set(t.x, t.y, 1);
    data.Toggle();
    painted := true;
    if Sound(r, b, data.w, data.h, l) {
      PokeSound(r, b, data.w, data.h, l, i);
    }
  }

  /** render's effect on the record: the canvas-clearing flag is consumed. The
      cell sizes cwidth / w and cheight / h need a positive grid. */
  method Render(data: Internal)
    requires 0 < data.w && 0 < data.h
    modifies data`clear
    ensures !data.clear
  {
    if data.clear {
      data.clear := false;
    }
  }

  /** draw: an update when upd holds, then render. */
  method Draw(data: Internal, upd: bool)
    requires data.Valid() && 0 < data.w && 0 < data.h
    modifies data`nearAliveList, data`cur, data`clear, data.field1, data.field2, data.nearAlive
    ensures data.Valid() && !data.clear
    ensures !upd ==> data.Read() == old(data.Read()) && data.Written() == old(data.Written())
                     && data.nearAliveList == old(data.nearAliveList)
    ensures upd ==> data.Written() == old(data.Read())
                    && data.nearAliveList == MarkAround([], data.w, data.h, Changed(old(data.nearAliveList), old(data.Read()), data.w, data.h))
    ensures old(data.Stable()) ==>
              (data.Stable() &&
               data.Read() == if upd then LifeStep(old(data.Read()), data.w, data.h) else old(data.Read()))
  {
    if upd {
      Update(data);
    }
    Render(data);
  }
}
