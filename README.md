# Visibility-filtering cursor of the GIMP liquid-rescaling plug-in

This project models the cursor of the seam-carving engine, `src/lqr_cursor.c`,
in Dafny and proves its behaviour.

The raster never compacts its pixel map. It keeps one record per original
pixel, `w0 * h0` records in row-major order. A record removed by the k-th seam
carries the visibility stamp `vs = k`; a record that was never removed carries
`vs = 0`. The cursor walks this map and skips every record with
`vs != 0 && vs < level`. To its users the carved map therefore reads as a dense
`w x h` image. The cursor keeps 1-based logical coordinates `x`, `y` and the
index `now` of the record it stands on.

- `visibility.dfy`, module `Visibility`: the shared skip rule (`Visible`) and
  the visible count of a map (`CountVisible`). It also defines what a forward
  or backward skip loop stops on (`NextVisibleFrom`, `PrevVisibleFrom`), with
  the counting lemmas the cursor needs.
- `lqr_cursor.dfy`, module `LqrCursor`:
  - the owner fields a cursor reads (class `Raster`);
  - the cursor itself (class `Cursor`, with methods `Reset`, `Next`, `Prev`,
    `Right`, `Left` and the loops of the C code);
  - the spec functions `Start`, `StepForward` and `StepBackward` over a value
    snapshot (`RasterView`, `CursorState`) that the methods are proved against.

Two predicates carry the proofs:

- `Coherent`: the raster has a positive logical size, its map holds `w0 * h0`
  records, and exactly `w * h` of them are visible at the current level.
  Seam carving maintains this.
- `WellPlaced`: the record at `now` is visible, and exactly `(y-1)*w + (x-1)`
  visible records precede it.

From these two facts every skip loop provably stays inside the map. The C code
checks those bounds only with `__LQR_DEBUG__` assertions. Here they are proof
obligations and are discharged, so none of them is a precondition.

## Model

| member | source | states |
|---|---|---|
| Visibility.NextVisibleFrom | src/lqr_cursor.c:124-131 | the forward skip stops on the smallest index at or after its start whose record is visible (or at the end of the map), and every record it passes is invisible |
| Visibility.PrevVisibleFrom | src/lqr_cursor.c:162-169 | the backward skip stops on the largest index at or before its start whose record is visible (or at -1), and every record it passes is invisible |
| Visibility.CountAntitone | src/lqr_cursor.c:82 | raising the level never makes more records visible: a carved record stays hidden at every later level |
| Visibility.VisibleAhead | src/lqr_cursor.c:119-131 | if fewer records are visible before an index than in the whole map, the forward skip from it stops inside the map (the bound asserted at lines 121 and 129) |
| Visibility.VisibleBehind | src/lqr_cursor.c:157-169 | if some record up to an index is visible, the backward skip from it stops at an index >= 0 (the bound asserted at lines 159 and 167) |
| Visibility.PrevUndoesNext | src/lqr_cursor.c:134-169 | from a visible record, a backward skip started just before the next visible record lands back on it |
| Visibility.NextUndoesPrev | src/lqr_cursor.c:109-131 | from a visible record, a forward skip started just after the previous visible record lands back on it |
| LqrCursor.Start | src/lqr_cursor.c:74-88 | on a coherent raster, reset's position is (1,1) on the first visible record; every record before it is invisible, and the cursor is well placed |
| LqrCursor.StepForward | src/lqr_cursor.c:100-131 | next leaves the state unchanged at (w,h). Otherwise it wraps (w,y) to (1,y+1) and moves (x,y) to (x+1,y). The new record is the first visible one after the old, everything skipped is invisible, and the cursor stays well placed, hence inside the map |
| LqrCursor.StepBackward | src/lqr_cursor.c:138-169 | prev leaves the state unchanged at (1,1). Otherwise it wraps (1,y) to (w,y-1) and moves (x,y) to (x-1,y). The new record is the last visible one before the old, everything skipped is invisible, and the cursor stays well placed, hence at an index >= 0 |
| LqrCursor.PlacementIsUnique | src/lqr_cursor.c:100-119 | the logical coordinates of a well-placed cursor determine its record, so the carved map acts as a dense w x h image |
| LqrCursor.StepBackwardUndoesForward | src/lqr_cursor.c:134-170 | prev behaves opposite to next: with the level unchanged and the cursor not at (w,h), prev after next restores x, y and now |
| LqrCursor.StepForwardUndoesBackward | src/lqr_cursor.c:93-170 | symmetrically, with the cursor not at (1,1), next after prev restores x, y and now |
| LqrCursor.Cursor.constructor | src/lqr_cursor.c:41-55 | create binds the owner and the map, then resets: the cursor is valid and in the reset state |
| LqrCursor.Cursor.Reset | src/lqr_cursor.c:66-89 | the skip loop stops on the first visible record, inside the map; x = y = 1, every earlier record is invisible, and the new state is Start |
| LqrCursor.Cursor.Next | src/lqr_cursor.c:93-132 | the new state is StepForward of the old one. Nothing changes at (w,h); otherwise now advances to an index below w0*h0 past invisible records only |
| LqrCursor.Cursor.Prev | src/lqr_cursor.c:135-170 | the new state is StepBackward of the old one. Nothing changes at (1,1); otherwise now retreats to an index >= 0 past invisible records only |
| LqrCursor.Cursor.Right | src/lqr_cursor.c:177-203 | requires x < w. Returns the first visible index after now, inside the map, without moving the cursor; it is the record at logical (x+1, y) |
| LqrCursor.Cursor.Left | src/lqr_cursor.c:205-231 | requires x > 1. Returns the last visible index before now, at least 0, without moving the cursor; it is the record at logical (x-1, y) |

## Left out

- LqrCursor.Cursor.Reset: the debug assertion at line 86 bounds the first visible record by `w0`, the first original row. That needs the raster's row structure, which belongs to the raster code and is not part of this model. The model proves the weaker bound `now < w0 * h0` and that `now` is the first visible record.
- `Coherent` is assumed of the owner raster. It is what seam carving maintains, but the raster code (`lqr_raster`, seam search, energy and gradient) is not part of this model.
- `lqr_cursor_destroy` and the allocation in `lqr_cursor_create` (`g_try_new`, `TRY_N_N`, `g_free`): memory management. The constructor models object creation only; allocation failure is not modelled.
- The `__LQR_DEBUG__` `initialized` flag: a cursor exists only through its constructor, so the flag is always set. It becomes the precondition `Valid()`.
- `right` and `left` return a pointer to a record; the model returns its index in the map. Record contents other than the stamp `vs` are not modelled.
- C `int` widths of `x`, `y`, `vs`, `level` and pointer offsets: Dafny integers are unbounded. All values stay within `w0 * h0` and the stamp range, so no wrap-around arises.
- The comment on the `(1,1)` case of `prev` (line 143) says "bottom-right corner", but the code tests `x == 1 && y == 1`. The model follows the code.
- `src/render.c` and `src/layers_combo.h`: host-application plumbing and GUI declarations with no cursor logic. They are not part of this model.
