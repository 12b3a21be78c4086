/**
 * The visibility-filtering cursor of the liquid-rescaling raster.
 *
 * A cursor walks the flat, row-major pixel map of its owner raster and sees
 * only the records visible at the raster's current level, so that a partly
 * carved map reads as a dense w x h image. It holds 1-based logical
 * coordinates (x, y) and the index `now` of the record it stands on.
 *
 * The raster is assumed coherent (Coherent): its logical size is positive,
 * the map holds w0 * h0 records, and exactly w * h of them are visible.
 * A cursor is placed (WellPlaced) when `now` is visible and exactly
 * (y - 1) * w + (x - 1) visible records precede it. From these two facts
 * every bound that the original code only checks with debug assertions
 * is proved.
 */
module LqrCursor {
  import opened Visibility

  /** The fields of the owning raster that a cursor reads. The raster
      updates them between traversals (seam carving is not part of this
      model); a cursor never changes them. */
  class Raster {
    var w: int
    var h: int
    var w0: int
    var h0: int
    var level: int
  }

  /** What a cursor reads: the stamps of its map and its owner's sizes and level. */
  datatype RasterView = RasterView(stamps: seq<int>, level: int, w: int, h: int, w0: int, h0: int)

  /** The cursor's own state: logical coordinates and the current record. */
  datatype CursorState = CursorState(x: int, y: int, now: int)

  /** The raster invariant the cursor relies on: a positive logical size, a
      map sized to the original grid, and exactly w * h visible records. */
  predicate Coherent(g: RasterView)
  {
    1 <= g.w && 1 <= g.h && |g.stamps| == g.w0 * g.h0 && CountVisible(g.stamps, g.level) == g.w * g.h
  }

  /** Position of logical (x, y) in row-major visible order, counted from 0. */
  function Rank(w: int, x: int, y: int): int
  {
    (y - 1) * w + (x - 1)
  }

  /** The cursor stands on the visible record at logical position (x, y). */
  predicate WellPlaced(g: RasterView, st: CursorState)
  {
    && 1 <= st.x <= g.w && 1 <= st.y <= g.h
    && 0 <= st.now < |g.stamps| && Visible(g.stamps[st.now], g.level)
    && CountVisible(g.stamps[..st.now], g.level) == Rank(g.w, st.x, st.y)
  }

  lemma RankBelowArea(w: int, h: int, x: int, y: int)
    requires 1 <= x <= w && 1 <= y <= h
    ensures 0 <= Rank(w, x, y) < w * h
    ensures x < w || y < h ==> Rank(w, x, y) + 1 < w * h
    ensures x > 1 || y > 1 ==> Rank(w, x, y) >= 1
  {
    assert (y - 1) * w >= 0;
    assert (y - 1) * w <= (h - 1) * w;
    assert y > 1 ==> (y - 1) * w >= w;
    assert y < h ==> (y - 1) * w <= (h - 2) * w;
  }

  /** Consecutive logical positions, across a row end too, have consecutive ranks. */
  lemma RankSuccessor(w: int, x: int, y: int)
    ensures Rank(w, x + 1, y) == Rank(w, x, y) + 1
    ensures Rank(w, 1, y + 1) == Rank(w, w, y) + 1
  {
    assert y * w == (y - 1) * w + w;
  }

  /** Where `reset` puts the cursor: logical (1, 1), on the first visible record. */
  function Start(g: RasterView): (r: CursorState)
    requires Coherent(g)
    ensures WellPlaced(g, r) && r.x == 1 && r.y == 1
    ensures forall i :: 0 <= i < r.now ==> !Visible(g.stamps[i], g.level)
  {
    assert g.stamps[..0] == [];
    RankBelowArea(g.w, g.h, 1, 1);
    VisibleAhead(g.stamps, g.level, 0);
    CountOverHidden(g.stamps, g.level, 0, NextVisibleFrom(g.stamps, g.level, 0));
    CursorState(1, 1, NextVisibleFrom(g.stamps, g.level, 0))
  }

  /** One step of `next`: nothing at the last logical position; otherwise the
      coordinates advance in row-major order and the record becomes the first
      visible one after the current record. */
  function StepForward(g: RasterView, st: CursorState): (r: CursorState)
    requires Coherent(g) && WellPlaced(g, st)
    ensures WellPlaced(g, r)
    ensures st.x == g.w && st.y == g.h ==> r == st
    ensures !(st.x == g.w && st.y == g.h) ==>
      && st.now < r.now
      && (forall i :: st.now < i < r.now ==> !Visible(g.stamps[i], g.level))
      && (if st.x == g.w then r.x == 1 && r.y == st.y + 1 else r.x == st.x + 1 && r.y == st.y)
  {
    if st.x == g.w && st.y == g.h then st
    else
      var s, level := g.stamps, g.level;
      RankBelowArea(g.w, g.h, st.x, st.y);
      CountStep(s, level, st.now);
      VisibleAhead(s, level, st.now + 1);
      NextRank(s, level, st.now);
      RankSuccessor(g.w, st.x, st.y);
      var now := NextVisibleFrom(s, level, st.now + 1);
      if st.x == g.w then CursorState(1, st.y + 1, now) else CursorState(st.x + 1, st.y, now)
  }

  /** One step of `prev`: nothing at logical (1, 1); otherwise the coordinates
      retreat in row-major order and the record becomes the last visible one
      before the current record. */
  function StepBackward(g: RasterView, st: CursorState): (r: CursorState)
    requires Coherent(g) && WellPlaced(g, st)
    ensures WellPlaced(g, r)
    ensures st.x == 1 && st.y == 1 ==> r == st
    ensures !(st.x == 1 && st.y == 1) ==>
      && r.now < st.now
      && (forall i :: r.now < i < st.now ==> !Visible(g.stamps[i], g.level))
      && (if st.x == 1 then r.x == g.w && r.y == st.y - 1 else r.x == st.x - 1 && r.y == st.y)
  {
    if st.x == 1 && st.y == 1 then st
    else
      var s, level := g.stamps, g.level;
      RankBelowArea(g.w, g.h, st.x, st.y);
      VisibleBehind(s, level, st.now - 1);
      PrevRank(s, level, st.now);
      RankSuccessor(g.w, st.x - 1, st.y);
      RankSuccessor(g.w, g.w, st.y - 1);
      var now := PrevVisibleFrom(s, level, st.now - 1);
      if st.x == 1 then CursorState(g.w, st.y - 1, now) else CursorState(st.x - 1, st.y, now)
  }

  /** A placed cursor's record is determined by its logical coordinates. */
  lemma PlacementIsUnique(g: RasterView, a: CursorState, b: CursorState)
    requires WellPlaced(g, a) && WellPlaced(g, b)
    requires a.x == b.x && a.y == b.y
    ensures a == b
  {
    RankDeterminesIndex(g.stamps, g.level, a.now, b.now);
  }

  /** `prev` undoes `next` away from the last logical position. */
  lemma StepBackwardUndoesForward(g: RasterView, st: CursorState)
    requires Coherent(g) && WellPlaced(g, st)
    requires !(st.x == g.w && st.y == g.h)
    ensures StepBackward(g, StepForward(g, st)) == st
  {
    var back := StepBackward(g, StepForward(g, st));
    PlacementIsUnique(g, back, st);
  }

  /** `next` undoes `prev` away from logical (1, 1). */
  lemma StepForwardUndoesBackward(g: RasterView, st: CursorState)
    requires Coherent(g) && WellPlaced(g, st)
    requires !(st.x == 1 && st.y == 1)
    ensures StepForward(g, StepBackward(g, st)) == st
  {
    var fwd := StepForward(g, StepBackward(g, st));
    PlacementIsUnique(g, fwd, st);
  }

  class Cursor {
    /** The owner raster and the map walked; bound once at creation. */
    const o: Raster
    const data: array<int>
    var x: int
    var y: int
    var now: int

    ghost function View(): RasterView
      reads o, data
    {
      RasterView(data[..], o.level, o.w, o.h, o.w0, o.h0)
    }

    ghost function State(): CursorState
      reads this
    {
      CursorState(x, y, now)
    }

    ghost predicate Valid()
      reads this, o, data
    {
      Coherent(View()) && WellPlaced(View(), State())
    }

    /** Binds the owner and the map, then resets. */
    constructor (owner: Raster, m: array<int>)
      requires Coherent(RasterView(m[..], owner.level, owner.w, owner.h, owner.w0, owner.h0))
      ensures o == owner && data == m
      ensures Valid() && State() == Start(View())
    {
      o := owner;
      data := m;
      new;
      Reset();
    }

    /** Moves to logical (1, 1) and the first visible record. */
    method Reset()
      requires Coherent(View())
      modifies this
      ensures Valid() && State() == Start(View())
      ensures x == 1 && y == 1
      ensures Visible(data[now], o.level) && forall i :: 0 <= i < now ==> !Visible(data[i], o.level)
    {
      ghost var first := Start(View()).now;
      x := 1;
      y := 1;
      now := 0;
      while !Visible(data[now], o.level)
        invariant x == 1 && y == 1 && 0 <= now <= first
        decreases first - now
      {
        now := now + 1;
      }
    }

    /** Advances one logical position in row-major order; does nothing at the last one. */
    method Next()
      requires Valid()
      modifies this
      ensures Valid() && State() == StepForward(View(), old(State()))
      ensures old(x == o.w && y == o.h) ==> x == old(x) && y == old(y) && now == old(now)
      ensures !old(x == o.w && y == o.h) ==>
        && old(now) < now < data.Length
        && forall i :: old(now) < i < now ==> !Visible(data[i], o.level)
    {
      ghost var target := StepForward(View(), State());
      if x == o.w {
        if y == o.h {
          return;
        }
        x := 1;
        y := y + 1;
      } else {
        x := x + 1;
      }
      now := now + 1;
      while !Visible(data[now], o.level)
        invariant x == target.x && y == target.y
        invariant old(now) < now <= target.now
        invariant forall i :: old(now) < i < now ==> !Visible(data[i], o.level)
        decreases target.now - now
      {
        now := now + 1;
      }
    }

    /** Retreats one logical position in row-major order; does nothing at (1, 1). */
    method Prev()
      requires Valid()
      modifies this
      ensures Valid() && State() == StepBackward(View(), old(State()))
      ensures old(x == 1 && y == 1) ==> x == old(x) && y == old(y) && now == old(now)
      ensures !old(x == 1 && y == 1) ==>
        && 0 <= now < old(now)
        && forall i :: now < i < old(now) ==> !Visible(data[i], o.level)
    {
      ghost var target := StepBackward(View(), State());
      if x == 1 {
        if y == 1 {
          return;
        }
        x := o.w;
        y := y - 1;
      } else {
        x := x - 1;
      }
      now := now - 1;
      while !Visible(data[now], o.level)
        invariant x == target.x && y == target.y
        invariant target.now <= now < old(now)
        invariant forall i :: now < i < old(now) ==> !Visible(data[i], o.level)
        decreases now - target.now
      {
        now := now - 1;
      }
    }

    /** The visible record to the right of the cursor, which does not move. */
    method Right() returns (r: int)
      requires Valid() && x < o.w
      ensures now < r < data.Length && Visible(data[r], o.level)
      ensures forall i :: now < i < r ==> !Visible(data[i], o.level)
      ensures WellPlaced(View(), CursorState(x + 1, y, r))
    {
      ghost var target := StepForward(View(), State());
      r := now + 1;
      while !Visible(data[r], o.level)
        invariant now < r <= target.now
        invariant forall i :: now < i < r ==> !Visible(data[i], o.level)
        decreases target.now - r
      {
        r := r + 1;
      }
    }

    /** The visible record to the left of the cursor, which does not move. */
    method Left() returns (r: int)
      requires Valid() && x > 1
      ensures 0 <= r < now && Visible(data[r], o.level)
      ensures forall i :: r < i < now ==> !Visible(data[i], o.level)
      ensures WellPlaced(View(), CursorState(x - 1, y, r))
    {
      ghost var target := StepBackward(View(), State());
      r := now - 1;
      while !Visible(data[r], o.level)
        invariant target.now <= r < now
        invariant forall i :: r < i < now ==> !Visible(data[i], o.level)
        decreases r - target.now
      {
        r := r - 1;
      }
    }
  }
}
