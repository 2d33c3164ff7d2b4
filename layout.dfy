/** The arithmetic both menus share: a style, the extents of the items along
    the layout axis, and the cursor that walks along that axis. */
module Layout {
  import opened Geometry

  /** The box dimensions a menu is constructed with (`m_width`, `m_height`,
      `m_border`); colours are visual only and left out. */
  datatype Style = Style(width: real, height: real, border: real)

  /** The measured widths of the items, in order. */
  function Widths(items: seq<TextItem>): (r: seq<real>) {
    seq(|items|, i requires 0 <= i < |items| => items[i].local.width)
  }

  /** The measured heights of the items, in order. */
  function Heights(items: seq<TextItem>): (r: seq<real>) {
    seq(|items|, i requires 0 <= i < |items| => items[i].local.height)
  }

  /** How far the layout cursor has moved after the first `i` entries: each
      entry advances it by its extent plus one border. */
  function Advance(extents: seq<real>, border: real, i: nat): (r: real)
    requires i <= |extents|
    ensures NonNegative(extents, border) ==> 0.0 <= r
  {
    if i == 0 then 0.0 else Advance(extents, border, i - 1) + extents[i - 1] + border
  }

  /** The panel's length along the layout axis: one border at each end plus
      the whole advance, so exactly two borders when there are no entries. */
  function PanelLength(extents: seq<real>, border: real): (r: real)
    ensures extents == [] ==> r == 2.0 * border
    ensures NonNegative(extents, border) ==> 2.0 * border <= r
  {
    2.0 * border + Advance(extents, border, |extents|)
  }

  /** The layout is well formed: the border and every extent are non-negative. */
  ghost predicate NonNegative(extents: seq<real>, border: real) {
    border >= 0.0 && forall k :: 0 <= k < |extents| ==> extents[k] >= 0.0
  }

  /** The cursor never moves backwards in a well-formed layout. */
  lemma {:induction false} AdvanceMonotone(extents: seq<real>, border: real, i: nat, j: nat)
    requires NonNegative(extents, border)
    requires i <= j <= |extents|
    ensures Advance(extents, border, i) <= Advance(extents, border, j)
  {
    if i < j {
      AdvanceMonotone(extents, border, i, j - 1);
    }
  }

  /** Entry `i` ends at least one border before entry `j > i` starts. */
  lemma {:induction false} EntriesSeparated(extents: seq<real>, border: real, i: nat, j: nat)
    requires NonNegative(extents, border)
    requires i < j <= |extents|
    ensures Advance(extents, border, i) + extents[i] + border <= Advance(extents, border, j)
  {
    assert Advance(extents, border, i + 1) == Advance(extents, border, i) + extents[i] + border;
    AdvanceMonotone(extents, border, i + 1, j);
  }

  /** Entry `i`, which starts one border plus its advance into the panel,
      ends at least one border before the panel's far edge. */
  lemma {:induction false} EntryInsidePanel(extents: seq<real>, border: real, i: nat)
    requires NonNegative(extents, border)
    requires i < |extents|
    ensures 0.0 <= Advance(extents, border, i)
    ensures border + Advance(extents, border, i) + extents[i] <= PanelLength(extents, border) - border
  {
    AdvanceMonotone(extents, border, 0, i);
    EntriesSeparated(extents, border, i, |extents|);
  }

  /** Parking items off screen does not change what they measure, so it
      does not change any later layout. */
  lemma HiddenKeepsExtents(items: seq<TextItem>)
    ensures Widths(Hidden(items)) == Widths(items)
    ensures Heights(Hidden(items)) == Heights(items)
  {
  }

  /** Progress of a layout pass over `orig` towards `laid`: the first `i`
      items are in their final place and the rest are untouched. */
  ghost predicate LaidUpTo(items: seq<TextItem>, laid: seq<TextItem>, orig: seq<TextItem>, i: nat) {
    && |items| == |laid| == |orig|
    && i <= |orig|
    && (forall j :: 0 <= j < i ==> items[j] == laid[j])
    && (forall j :: i <= j < |orig| ==> items[j] == orig[j])
  }

  /** Placing the next item advances a layout pass by one. */
  lemma LaidUpToStep(items: seq<TextItem>, laid: seq<TextItem>, orig: seq<TextItem>, i: nat)
    requires LaidUpTo(items, laid, orig, i) && i < |orig|
    ensures LaidUpTo(items[i := laid[i]], laid, orig, i + 1)
  {
  }

  /** A layout pass that has placed every item has produced its target. */
  lemma LaidUpToAll(items: seq<TextItem>, laid: seq<TextItem>, orig: seq<TextItem>)
    requires LaidUpTo(items, laid, orig, |orig|)
    ensures items == laid
  {
  }
}
