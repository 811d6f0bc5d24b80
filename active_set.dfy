/** The active set (near_alive_list with its flag array near_alive) and the
    invariant that makes stepping only the active cells equal to a full
    generation. Sequences here are the abstract values of the engine's state:
    a read buffer, a write buffer and the list. */
module ActiveSet {
  import opened Torus
  import opened Life

  ghost predicate NoDup(l: seq<nat>)
  {
    forall p, q | 0 <= p < q < |l| :: l[p] != l[q]
  }

  /** What append_near does to the list: each cell of c that is not listed yet
      is appended, in the order of c. */
  function AddNear(l: seq<nat>, c: seq<nat>): seq<nat>
    decreases |c|
  {
    if c == [] then l
    else
      var p := AddNear(l, c[..|c| - 1]);
      if c[|c| - 1] in p then p else p + [c[|c| - 1]]
  }

  /** AddNear only appends, adds exactly the cells of c, and adds none twice. */
  lemma {:induction false} AddNearSpec(l: seq<nat>, c: seq<nat>)
    ensures forall v :: v in AddNear(l, c) <==> v in l || v in c
    ensures NoDup(l) ==> NoDup(AddNear(l, c))
    ensures |l| <= |AddNear(l, c)| <= |l| + |c| && AddNear(l, c)[..|l|] == l
    decreases |c|
  {
    if c != [] {
      var c' := c[..|c| - 1];
      AddNearSpec(l, c');
      assert c == c' + [c[|c| - 1]];
      forall v ensures v in c <==> v in c' || v == c[|c| - 1] {
      }
    }
  }

  /** Cells given as coordinates lie on the w-by-h grid. */
  predicate OnGrid(cs: seq<(nat, nat)>, w: nat, h: nat)
  {
    forall k | 0 <= k < |cs| :: cs[k].0 < w && cs[k].1 < h
  }

  /** One append_near per centre, in order: the list init and update build. */
  function MarkAround(l: seq<nat>, w: nat, h: nat, cs: seq<(nat, nat)>): seq<nat>
    requires cs == [] || (0 < w && 0 < h)
    decreases |cs|
  {
    if cs == [] then l
    else AddNear(MarkAround(l, w, h, cs[..|cs| - 1]), Neighbours(w, h, cs[|cs| - 1].0, cs[|cs| - 1].1))
  }

  /** MarkAround holds l and the neighbourhood of every centre, and nothing else. */
  lemma {:induction false} MarkAroundSpec(l: seq<nat>, w: nat, h: nat, cs: seq<(nat, nat)>)
    requires cs == [] || (0 < w && 0 < h)
    ensures forall v :: v in l ==> v in MarkAround(l, w, h, cs)
    ensures forall k, v | 0 <= k < |cs| && v in Neighbours(w, h, cs[k].0, cs[k].1) :: v in MarkAround(l, w, h, cs)
    ensures forall v | v in MarkAround(l, w, h, cs) ::
              v in l || exists k | 0 <= k < |cs| :: v in Neighbours(w, h, cs[k].0, cs[k].1)
    decreases |cs|
  {
    if cs != [] {
      var cs' := cs[..|cs| - 1];
      var last := cs[|cs| - 1];
      MarkAroundSpec(l, w, h, cs');
      AddNearSpec(MarkAround(l, w, h, cs'), Neighbours(w, h, last.0, last.1));
      forall v | v in MarkAround(l, w, h, cs)
        ensures v in l || exists k | 0 <= k < |cs| :: v in Neighbours(w, h, cs[k].0, cs[k].1)
      {
        if v !in MarkAround(l, w, h, cs') {
          assert v in Neighbours(w, h, cs[|cs| - 1].0, cs[|cs| - 1].1);
        } else if v !in l {
          var k :| 0 <= k < |cs'| && v in Neighbours(w, h, cs'[k].0, cs'[k].1);
          assert cs'[k] == cs[k];
        }
      }
      forall k, v | 0 <= k < |cs| && v in Neighbours(w, h, cs[k].0, cs[k].1)
        ensures v in MarkAround(l, w, h, cs)
      {
        if k < |cs'| {
          assert cs'[k] == cs[k];
        }
      }
    }
  }

  /** Marking a + b is marking a, then b. */
  lemma {:induction false} MarkAroundAppend(l: seq<nat>, w: nat, h: nat, a: seq<(nat, nat)>, b: seq<(nat, nat)>)
    requires 0 < w && 0 < h
    ensures MarkAround(l, w, h, a + b) == MarkAround(MarkAround(l, w, h, a), w, h, b)
    decreases |b|
  {
    if b == [] {
      assert a + b == a;
    } else {
      var b' := b[..|b| - 1];
      assert (a + b)[..|a + b| - 1] == a + b';
      MarkAroundAppend(l, w, h, a, b');
    }
  }

  /** The cells of list l that the rule changes, as coordinates and in list
      order: the cells for which update's set calls append_near. */
  function Changed(l: seq<nat>, g: seq<Byte>, w: nat, h: nat): (cs: seq<(nat, nat)>)
    requires |g| == w * h && forall k | 0 <= k < |l| :: l[k] < w * h
    ensures cs == [] || (0 < w && 0 < h)
    ensures OnGrid(cs, w, h)
    decreases |l|
  {
    if l == [] then []
    else
      var p := Changed(l[..|l| - 1], g, w, h);
      var i := l[|l| - 1];
      IdxRoundTrip(w, h, i);
      if LifeStep(g, w, h)[i] != g[i] then p + [Idx2Coord(w, i)] else p
  }

  /** Every listed cell that the rule changes has its coordinates in Changed. */
  lemma {:induction false} ChangedHas(l: seq<nat>, g: seq<Byte>, w: nat, h: nat, i: nat)
    requires |g| == w * h && forall k | 0 <= k < |l| :: l[k] < w * h
    requires i in l && LifeStep(g, w, h)[i] != g[i]
    ensures 0 < w && 0 < h
    ensures Idx2Coord(w, i) in Changed(l, g, w, h)
    decreases |l|
  {
    IdxRoundTrip(w, h, i);
    if l[|l| - 1] != i {
      var l' := l[..|l| - 1];
      assert l == l' + [l[|l| - 1]];
      ChangedHas(l', g, w, h, i);
    }
  }

  /** First half of the invariant: wherever the two buffers differ, the whole
      3x3 block around that cell is listed. */
  ghost predicate Covered(a: seq<Byte>, b: seq<Byte>, w: nat, h: nat, l: seq<nat>)
  {
    |a| == w * h && |b| == w * h &&
    forall i {:trigger a[i], b[i]} | 0 <= i < w * h && a[i] != b[i] :: forall j | j in Around(w, h, i) :: j in l
  }

  /** Second half: every unlisted cell of a is left as it is by the rule. */
  ghost predicate Settled(a: seq<Byte>, w: nat, h: nat, l: seq<nat>)
  {
    |a| == w * h &&
    forall i {:trigger LifeStep(a, w, h)[i]} | 0 <= i < w * h && i !in l :: LifeStep(a, w, h)[i] == a[i]
  }

  /** The engine's invariant on (read buffer, write buffer, list). */
  ghost predicate Sound(a: seq<Byte>, b: seq<Byte>, w: nat, h: nat, l: seq<nat>)
  {
    Covered(a, b, w, h, l) && Settled(a, w, h, l)
  }

  /** The buffer update writes: the rule applied to r at the listed cells, the
      old contents of the write buffer b elsewhere. */
  function Patch(b: seq<Byte>, r: seq<Byte>, l: seq<nat>, w: nat, h: nat): (p: seq<Byte>)
    requires |b| == w * h && |r| == w * h
    ensures |p| == w * h
  {
    seq(w * h, i requires 0 <= i < w * h => if i in l then LifeStep(r, w, h)[i] else b[i])
  }

  /** Patch built one listed cell at a time, in list order, as update's loop does. */
  function Patched(b: seq<Byte>, r: seq<Byte>, l: seq<nat>, w: nat, h: nat): (p: seq<Byte>)
    requires |b| == w * h && |r| == w * h && forall k | 0 <= k < |l| :: l[k] < w * h
    ensures |p| == w * h
    decreases |l|
  {
    if l == [] then b
    else Patched(b, r, l[..|l| - 1], w, h)[l[|l| - 1] := LifeStep(r, w, h)[l[|l| - 1]]]
  }

  /** Writing the listed cells one by one gives Patch, whatever the order. */
  lemma {:induction false} PatchedIsPatch(b: seq<Byte>, r: seq<Byte>, l: seq<nat>, w: nat, h: nat)
    requires |b| == w * h && |r| == w * h && forall k | 0 <= k < |l| :: l[k] < w * h
    ensures Patched(b, r, l, w, h) == Patch(b, r, l, w, h)
    decreases |l|
  {
    if l != [] {
      var l' := l[..|l| - 1];
      PatchedIsPatch(b, r, l', w, h);
      assert l == l' + [l[|l| - 1]];
      forall i | 0 <= i < w * h ensures Patched(b, r, l, w, h)[i] == Patch(b, r, l, w, h)[i] {
        assert i in l <==> i in l' || i == l[|l| - 1];
      }
    }
  }

  /** One more iteration of update's loop: the prefix of l grows by l[k], the
      patched buffer by l[k]'s new value and the rebuilt list by its block when
      that cell changes. */
  lemma PrefixStep(b: seq<Byte>, r: seq<Byte>, l: seq<nat>, w: nat, h: nat, k: nat)
    requires |b| == w * h && |r| == w * h && forall j | 0 <= j < |l| :: l[j] < w * h
    requires k < |l|
    ensures Patched(b, r, l[..k + 1], w, h) == Patched(b, r, l[..k], w, h)[l[k] := LifeStep(r, w, h)[l[k]]]
    ensures MarkAround([], w, h, Changed(l[..k + 1], r, w, h))
         == if LifeStep(r, w, h)[l[k]] != r[l[k]]
            then AddNear(MarkAround([], w, h, Changed(l[..k], r, w, h)), Around(w, h, l[k]))
            else MarkAround([], w, h, Changed(l[..k], r, w, h))
  {
    assert l[..k + 1][..k] == l[..k];
    IdxRoundTrip(w, h, l[k]);
  }

  /** If a and b differ only inside listed blocks and the rule maps b to a
      outside the list, then a is settled outside the list. */
  lemma FixedOutside(a: seq<Byte>, b: seq<Byte>, w: nat, h: nat, l: seq<nat>)
    requires Covered(a, b, w, h, l)
    requires forall i | 0 <= i < w * h && i !in l :: LifeStep(b, w, h)[i] == a[i]
    ensures Settled(a, w, h, l)
  {
    forall i | 0 <= i < w * h && i !in l ensures LifeStep(a, w, h)[i] == a[i] {
      AroundInRange(w, h, i);
      forall j | j in Around(w, h, i) ensures a[j] == b[j] {
        if a[j] != b[j] {
          Symmetric(w, h, i, j);
        }
      }
      Locality(a, b, w, h, i);
    }
  }

  /** Under the invariant, patching the listed cells yields the whole generation. */
  lemma PatchIsStep(r: seq<Byte>, b: seq<Byte>, w: nat, h: nat, l: seq<nat>)
    requires Sound(r, b, w, h, l)
    ensures Patch(b, r, l, w, h) == LifeStep(r, w, h)
  {
    forall i | 0 <= i < w * h ensures Patch(b, r, l, w, h)[i] == LifeStep(r, w, h)[i] {
      if i !in l {
        AroundHasCentre(w, h, i);
      }
    }
  }

  /** The list update rebuilds covers every cell the generation changes: such a
      cell was listed (the rest are settled), so Changed holds it. */
  lemma ChangedCovered(r: seq<Byte>, w: nat, h: nat, l: seq<nat>)
    requires Settled(r, w, h, l)
    requires forall k | 0 <= k < |l| :: l[k] < w * h
    ensures Covered(LifeStep(r, w, h), r, w, h, MarkAround([], w, h, Changed(l, r, w, h)))
  {
    var next := LifeStep(r, w, h);
    var cs := Changed(l, r, w, h);
    MarkAroundSpec([], w, h, cs);
    forall i | 0 <= i < w * h && next[i] != r[i]
      ensures forall j | j in Around(w, h, i) :: j in MarkAround([], w, h, cs)
    {
      ChangedHas(l, r, w, h, i);
      var k :| 0 <= k < |cs| && cs[k] == Idx2Coord(w, i);
    }
  }

  /** The centrepiece: under the invariant, update's patched buffer is the full
      toroidal generation of the read buffer, and the invariant holds again for
      the swapped buffers and the list update rebuilds. */
  lemma StepSound(r: seq<Byte>, b: seq<Byte>, w: nat, h: nat, l: seq<nat>)
    requires Sound(r, b, w, h, l)
    requires forall k | 0 <= k < |l| :: l[k] < w * h
    ensures Patch(b, r, l, w, h) == LifeStep(r, w, h)
    ensures Sound(LifeStep(r, w, h), r, w, h, MarkAround([], w, h, Changed(l, r, w, h)))
  {
    PatchIsStep(r, b, w, h, l);
    ChangedCovered(r, w, h, l);
    FixedOutside(LifeStep(r, w, h), r, w, h, MarkAround([], w, h, Changed(l, r, w, h)));
  }

  /** set's rule, append_near exactly when the new value differs from the read
      buffer, keeps the first half of the invariant. */
  lemma SetCovered(r: seq<Byte>, b: seq<Byte>, w: nat, h: nat, l: seq<nat>, i: nat, v: Byte)
    requires Covered(r, b, w, h, l) && i < w * h
    ensures Covered(r, b[i := v], w, h, if r[i] != v then AddNear(l, Around(w, h, i)) else l)
  {
    AddNearSpec(l, Around(w, h, i));
  }

  /** Forcing cell i alive in the read buffer r, and listing its block unless
      the write buffer b already holds 1 there: r' differs from b and from r
      only inside listed blocks, and the unlisted cells of r' are those of r. */
  lemma PokeCovered(r: seq<Byte>, b: seq<Byte>, w: nat, h: nat, l: seq<nat>, i: nat)
    requires Sound(r, b, w, h, l) && i < w * h
    ensures var l' := if b[i] != 1 then AddNear(l, Around(w, h, i)) else l;
            Covered(r[i := 1], b, w, h, l') && Covered(r[i := 1], r, w, h, l') &&
            forall j | 0 <= j < w * h && j !in l' :: LifeStep(r, w, h)[j] == r[i := 1][j]
  {
    AddNearSpec(l, Around(w, h, i));
    AroundHasCentre(w, h, i);
  }

  /** click's toggle-set-toggle keeps the invariant. */
  lemma PokeSound(r: seq<Byte>, b: seq<Byte>, w: nat, h: nat, l: seq<nat>, i: nat)
    requires Sound(r, b, w, h, l) && i < w * h
    ensures Sound(r[i := 1], b, w, h, if b[i] != 1 then AddNear(l, Around(w, h, i)) else l)
  {
    PokeCovered(r, b, w, h, l, i);
    FixedOutside(r[i := 1], r, w, h, if b[i] != 1 then AddNear(l, Around(w, h, i)) else l);
  }
}
