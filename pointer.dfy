/** Mapping a mouse click in canvas pixels to a grid cell (the arithmetic of
    click): the canvas is split into cells of cwidth / w by cheight / h pixels. */
module Pointer {
  import opened Torus

  /** Where a click lands: a cell, a division by zero (the source panics), or
      (in the corrected mapping only) a point right of or below the grid. */
  datatype Target = Cell(x: nat, y: nat) | DivideByZero | OffGrid

  /** a <= b scales to a * f <= b * f. */
  lemma MulMono(a: int, b: int, f: int)
    requires a <= b && 0 <= f
    ensures a * f <= b * f
  {
    assert b * f - a * f == (b - a) * f;
  }

  /** The quotient n / f is the q whose block [q * f, (q + 1) * f) holds n. */
  lemma DivBlock(n: nat, f: nat)
    requires 0 < f
    ensures (n / f) * f <= n < (n / f + 1) * f
  {
    assert n == (n / f) * f + n % f;
  }

  /** Integer division by a positive factor is monotone. */
  lemma {:induction false} DivMono(n: nat, n': nat, f: nat)
    requires 0 < f && n <= n'
    ensures n / f <= n' / f
  {
    DivBlock(n, f);
    DivBlock(n', f);
    if n' / f + 1 <= n / f {
      MulMono(n' / f + 1, n / f, f);
    }
  }

  /** The quotient is zero exactly when the dividend is below the divisor. */
  lemma DivZero(n: nat, d: nat)
    requires 0 < d
    ensures n / d == 0 <==> n < d
  {
    DivBlock(n, d);
    MulStep(n / d, d);
  }

  /** click as written: the cell size is cwidth / w by cheight / h and the cell
      is (x / size, y / size); nothing checks that the cell lies on the grid. */
  function ClickCellAsWritten(px: nat, py: nat, cw: nat, ch: nat, w: nat, h: nat): (t: Target)
    ensures t.DivideByZero? <==> w == 0 || h == 0 || cw < w || ch < h
    ensures !t.OffGrid?
  {
    if w == 0 || h == 0 then DivideByZero
    else
      var fx, fy := cw / w, ch / h;
      DivZero(cw, w);
      DivZero(ch, h);
      if cw < w || ch < h then DivideByZero
      else Cell(px / fx, py / fy)
  }

  /** The corrected mapping this model uses: the same cell arithmetic, but a
      cell outside the w-by-h grid is reported instead of being written
      (clamping it onto the grid would be an equally valid correction). */
  function ClickTarget(px: nat, py: nat, cw: nat, ch: nat, w: nat, h: nat): (t: Target)
    ensures t.DivideByZero? <==> ClickCellAsWritten(px, py, cw, ch, w, h).DivideByZero?
    ensures t.Cell? <==> ClickCellAsWritten(px, py, cw, ch, w, h).Cell?
                         && ClickCellAsWritten(px, py, cw, ch, w, h).x < w
                         && ClickCellAsWritten(px, py, cw, ch, w, h).y < h
    ensures t.Cell? ==> t == ClickCellAsWritten(px, py, cw, ch, w, h)
    ensures t.Cell? ==> t.x < w && t.y < h
  {
    match ClickCellAsWritten(px, py, cw, ch, w, h)
    case Cell(x, y) => if x < w && y < h then Cell(x, y) else OffGrid
    case other => other
  }

  /** A clicked cell is the one whose pixel rectangle holds the click. */
  lemma ClickInsideCell(px: nat, py: nat, cw: nat, ch: nat, w: nat, h: nat)
    requires ClickTarget(px, py, cw, ch, w, h).Cell?
    ensures 0 < w && 0 < h && 0 < cw / w && 0 < ch / h
    ensures var t := ClickTarget(px, py, cw, ch, w, h);
            t.x * (cw / w) <= px < (t.x + 1) * (cw / w) &&
            t.y * (ch / h) <= py < (t.y + 1) * (ch / h)
  {
    DivBlock(px, cw / w);
    DivBlock(py, ch / h);
  }

  /** Every click inside the part of the canvas the grid covers (w cells of
      cwidth / w pixels across, h cells down) hits a cell. */
  lemma {:induction false} ClickCoversGrid(px: nat, py: nat, cw: nat, ch: nat, w: nat, h: nat)
    requires 0 < w && 0 < h && w <= cw && h <= ch
    requires px < w * (cw / w) && py < h * (ch / h)
    ensures ClickTarget(px, py, cw, ch, w, h).Cell?
  {
    DivZero(cw, w);
    DivZero(ch, h);
    DivBlock(cw, w);
    DivBlock(ch, h);
    var fx, fy := cw / w, ch / h;
    DivBlock(px, fx);
    DivBlock(py, fy);
    if w <= px / fx {
      MulMono(w, px / fx, fx);
    }
    if h <= py / fy {
      MulMono(h, py / fy, fy);
    }
  }

  /** Moving the pointer right or down never moves the target cell left or up. */
  lemma ClickMonotone(px: nat, py: nat, px': nat, py': nat, cw: nat, ch: nat, w: nat, h: nat)
    requires px <= px' && py <= py'
    requires ClickCellAsWritten(px, py, cw, ch, w, h).Cell?
    ensures ClickCellAsWritten(px', py', cw, ch, w, h).Cell?
    ensures ClickCellAsWritten(px, py, cw, ch, w, h).x <= ClickCellAsWritten(px', py', cw, ch, w, h).x
    ensures ClickCellAsWritten(px, py, cw, ch, w, h).y <= ClickCellAsWritten(px', py', cw, ch, w, h).y
  {
    DivMono(px, px', cw / w);
    DivMono(py, py', ch / h);
  }

  /** Every cell of the block around (x, y) lies in row y - 1, y or y + 1 (mod h). */
  lemma NeighbourRows(w: nat, h: nat, x: nat, y: nat)
    requires 0 < w && 0 < h
    ensures forall j | j in Neighbours(w, h, x, y) ::
              j / w == (y + h - 1) % h || j / w == y % h || j / w == (y + 1) % h
  {
    var n := Neighbours(w, h, x, y);
    forall k | 0 <= k < 9
      ensures n[k] / w == (y + h - 1) % h || n[k] / w == y % h || n[k] / w == (y + 1) % h
    {
      var a, b := k / 3, k % 3;
      NeighbourAt(w, h, x, y, a, b);
      CoordRoundTrip(w, h, (x + Offsets(w)[b]) % w, (y + Offsets(h)[a]) % h);
    }
  }

  /** Entry 7 of the block around index i, the cell (x, y) = (i % w, i / w),
      is the cell one row down. */
  lemma AroundAt(w: nat, h: nat, i: nat, x: nat, y: nat)
    requires x < w && y + 1 < h && i < w * h && i % w == x && i / w == y
    ensures Around(w, h, i)[7] == Coord2Idx(w, x, y + 1)
  {
    ModSmall(x, w);
    ModSmall(y + 1, h);
    CellIdxCoord(w, h, x, y + 1);
  }

  /** A cell two rows below y is not in the block around (x, y) when the
      grid has at least four rows more than y. */
  lemma {:induction false} OutsideBlock(w: nat, h: nat, x: nat, y: nat, t: nat)
    requires 0 < w && y + 4 <= h && t / w == y + 2
    ensures t !in Neighbours(w, h, x, y)
  {
    NeighbourRows(w, h, x, y);
    ModSmall(y, h);
    ModSmall(y + 1, h);
    if 1 <= y {
      DivModUnique(y + h - 1, h, 1, y - 1);
    } else {
      ModSmall(h - 1, h);
    }
  }

  /** Why an off-grid column is harmful: for w <= x < 2 * w, the index y * w + x
      that set writes is the on-grid cell (x - w, y + 1), but the block
      append_near marks is the one around (x, y), rows y - 1 to y + 1, which
      misses the cell below the written one. */
  lemma {:induction false} StaleNeighbourhood(w: nat, h: nat, x: nat, y: nat)
    requires 0 < w && w <= x < 2 * w && y + 4 <= h
    ensures Coord2Idx(w, x, y) < w * h
    ensures Idx2Coord(w, Coord2Idx(w, x, y)) == (x - w, y + 1)
    ensures Coord2Idx(w, x - w, y + 2) in Around(w, h, Coord2Idx(w, x, y))
    ensures Coord2Idx(w, x - w, y + 2) !in Neighbours(w, h, x, y)
  {
    var i := Coord2Idx(w, x, y);
    assert i == (y + 1) * w + (x - w);
    DivModUnique(i, w, y + 1, x - w);
    CoordRoundTrip(w, h, x - w, y + 1);
    AroundAt(w, h, i, x - w, y + 1);
    AroundHasCentre(w, h, i);
    var t := Coord2Idx(w, x - w, y + 2);
    DivModUnique(t, w, y + 2, x - w);
    OutsideBlock(w, h, x, y, t);
  }

  /** The bug on a 200 by 200 grid drawn on a 500 by 500 canvas (cells of 2 by
      2 pixels, so the grid fills only 400 pixels): a click at pixel (450, 0)
      yields the off-grid cell (225, 0), which the corrected mapping rejects.
      StaleNeighbourhood(200, 200, 225, 0) then says what set does with it. */
  lemma ClickPastRightEdge()
    ensures ClickCellAsWritten(450, 0, 500, 500, 200, 200) == Cell(225, 0)
    ensures ClickTarget(450, 0, 500, 500, 200, 200) == OffGrid
  {
    DivModUnique(500, 200, 2, 100);
    DivModUnique(450, 2, 225, 0);
  }
}
