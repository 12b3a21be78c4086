/**
 * Visibility stamps of the liquid-rescaling raster.
 *
 * Every record of the (never reallocated) pixel map carries a stamp `vs`:
 * 0 for a record that was never carved away, and k > 0 for a record removed
 * by the k-th seam. At a given `level` the cursor skips exactly the records
 * with `vs != 0 && vs < level`; this module states that rule once and the
 * facts about it that the cursor's skip loops rely on.
 */
module Visibility {

  /** The single filtering rule: a record is shown at `level` unless it
      carries a non-zero stamp below that level. */
  predicate Visible(vs: int, level: int)
  {
    vs == 0 || vs >= level
  }

  /** Number of records of `s` that are visible at `level`. */
  function CountVisible(s: seq<int>, level: int): (n: nat)
    ensures n <= |s|
  {
    if s == [] then 0
    else CountVisible(s[..|s| - 1], level) + (if Visible(s[|s| - 1], level) then 1 else 0)
  }

  /** Smallest index `j >= i` whose record is visible, or `|s|` when there is none:
      the position a forward skip loop started at `i` stops at. */
  function NextVisibleFrom(s: seq<int>, level: int, i: nat): (j: nat)
    requires i <= |s|
    ensures i <= j <= |s|
    ensures j < |s| ==> Visible(s[j], level)
    ensures forall k :: i <= k < j ==> !Visible(s[k], level)
    decreases |s| - i
  {
    if i == |s| || Visible(s[i], level) then i else NextVisibleFrom(s, level, i + 1)
  }

  /** Largest index `j <= i` whose record is visible, or -1 when there is none:
      the position a backward skip loop started at `i` stops at. */
  function PrevVisibleFrom(s: seq<int>, level: int, i: int): (j: int)
    requires -1 <= i < |s|
    ensures -1 <= j <= i
    ensures j >= 0 ==> Visible(s[j], level)
    ensures forall k :: j < k <= i ==> !Visible(s[k], level)
    decreases i + 1
  {
    if i < 0 || Visible(s[i], level) then i else PrevVisibleFrom(s, level, i - 1)
  }

  /** Extending a prefix by one record adds one to the count exactly when that record is visible. */
  lemma CountStep(s: seq<int>, level: int, k: nat)
    requires k < |s|
    ensures CountVisible(s[..k + 1], level) == CountVisible(s[..k], level) + (if Visible(s[k], level) then 1 else 0)
  {
    assert s[..k + 1][..k] == s[..k];
  }

  /** Skipping a stretch of invisible records leaves the visible count unchanged. */
  lemma {:induction false} CountOverHidden(s: seq<int>, level: int, i: nat, j: nat)
    requires i <= j <= |s|
    requires forall k :: i <= k < j ==> !Visible(s[k], level)
    ensures CountVisible(s[..j], level) == CountVisible(s[..i], level)
    decreases j - i
  {
    if i < j {
      CountOverHidden(s, level, i, j - 1);
      CountStep(s, level, j - 1);
    }
  }

  /** The visible count of a prefix grows with the prefix. */
  lemma {:induction false} CountMonotone(s: seq<int>, level: int, i: nat, j: nat)
    requires i <= j <= |s|
    ensures CountVisible(s[..i], level) <= CountVisible(s[..j], level)
    decreases j - i
  {
    if i < j {
      CountMonotone(s, level, i, j - 1);
      CountStep(s, level, j - 1);
    }
  }

  /** Raising the level never shows a record again: carving only hides pixels,
      so the visible count cannot grow with the level. */
  lemma {:induction false} CountAntitone(s: seq<int>, low: int, high: int)
    requires low <= high
    ensures CountVisible(s, high) <= CountVisible(s, low)
  {
    if s != [] {
      CountAntitone(s[..|s| - 1], low, high);
    }
  }

  /** If fewer records are visible before `i` than in the whole map, a forward
      skip from `i` stops on a record inside the map. */
  lemma VisibleAhead(s: seq<int>, level: int, i: nat)
    requires i <= |s|
    requires CountVisible(s[..i], level) < CountVisible(s, level)
    ensures NextVisibleFrom(s, level, i) < |s|
  {
    assert s[..|s|] == s;
    if NextVisibleFrom(s, level, i) == |s| {
      CountOverHidden(s, level, i, |s|);
    }
  }

  /** If some record up to `i` is visible, a backward skip from `i` stops on a
      record inside the map. */
  lemma VisibleBehind(s: seq<int>, level: int, i: int)
    requires -1 <= i < |s|
    requires 0 < CountVisible(s[..i + 1], level)
    ensures PrevVisibleFrom(s, level, i) >= 0
  {
    if PrevVisibleFrom(s, level, i) == -1 {
      CountOverHidden(s, level, 0, i + 1);
    }
  }

  /** The next visible record after a visible `k` is one further in visible order. */
  lemma NextRank(s: seq<int>, level: int, k: nat)
    requires k < |s| && Visible(s[k], level)
    requires NextVisibleFrom(s, level, k + 1) < |s|
    ensures CountVisible(s[..NextVisibleFrom(s, level, k + 1)], level) == CountVisible(s[..k], level) + 1
  {
    CountStep(s, level, k);
    CountOverHidden(s, level, k + 1, NextVisibleFrom(s, level, k + 1));
  }

  /** The previous visible record before `k` is one earlier in visible order. */
  lemma PrevRank(s: seq<int>, level: int, k: nat)
    requires k < |s|
    requires PrevVisibleFrom(s, level, k - 1) >= 0
    ensures CountVisible(s[..PrevVisibleFrom(s, level, k - 1)], level) + 1 == CountVisible(s[..k], level)
  {
    var p := PrevVisibleFrom(s, level, k - 1);
    CountStep(s, level, p);
    CountOverHidden(s, level, p + 1, k);
  }

  /** Two visible records with the same number of visible records before them are the same record. */
  lemma RankDeterminesIndex(s: seq<int>, level: int, i: nat, j: nat)
    requires i < |s| && j < |s|
    requires Visible(s[i], level) && Visible(s[j], level)
    requires CountVisible(s[..i], level) == CountVisible(s[..j], level)
    ensures i == j
  {
    if i < j {
      CountStep(s, level, i);
      CountMonotone(s, level, i + 1, j);
    } else if j < i {
      CountStep(s, level, j);
      CountMonotone(s, level, j + 1, i);
    }
  }

  /** A backward skip from just before the next visible record after `k` returns to `k`. */
  lemma PrevUndoesNext(s: seq<int>, level: int, k: nat)
    requires k < |s| && Visible(s[k], level)
    requires NextVisibleFrom(s, level, k + 1) < |s|
    ensures PrevVisibleFrom(s, level, NextVisibleFrom(s, level, k + 1) - 1) == k
  {
  }

  /** A forward skip from just after the previous visible record before `k` returns to `k`. */
  lemma NextUndoesPrev(s: seq<int>, level: int, k: nat)
    requires k < |s| && Visible(s[k], level)
    requires PrevVisibleFrom(s, level, k - 1) >= 0
    ensures NextVisibleFrom(s, level, PrevVisibleFrom(s, level, k - 1) + 1) == k
  {
  }
}
