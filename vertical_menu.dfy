/** `VerticalMenu`: items stacked top to bottom from an anchor passed to each
    `display` call, a background panel as tall as the column, and a hover
    highlight behind the hovered item. */
module Vertical {
  import opened Geometry
  import opened Layout
  import opened Canvas
  import opened Latch

  /** Fixed upward adjustment of the highlight. */
  const HoverLift: real := 12.5

  /** Where `display` puts every item: item `i` one border right of the
      anchor, and one border plus the heights and borders of the items above
      it below the anchor. */
  function Column(items: seq<TextItem>, border: real, anchor: Vec2): (r: seq<TextItem>)
    ensures |r| == |items|
    ensures |r| > 0 ==> r[0].position == Vec2(anchor.x + border, anchor.y + border)
  {
    seq(|items|, i requires 0 <= i < |items| =>
      items[i].(position := Vec2(anchor.x + border, anchor.y + border + Advance(Heights(items), border, i))))
  }

  /** The highlight behind a laid-out item: one border right of the anchor,
      half a border below the item's top less `HoverLift`, no wider than the
      panel's inner width and one border larger than the text. */
  function ColumnHover(style: Style, anchor: Vec2, item: TextItem): (r: RectShape)
    ensures r.size.x <= style.width - 2.0 * style.border && r.size.x <= item.local.width + style.border
    ensures r.size.x == style.width - 2.0 * style.border || r.size.x == item.local.width + style.border
    ensures r.size.y == item.local.height + style.border
  {
    RectShape(Vec2(style.border + anchor.x, item.position.y + style.border / 2.0 - HoverLift),
              Vec2(Min(style.width - 2.0 * style.border, item.local.width + style.border),
                   item.local.height + style.border))
  }

  /** The highlight a display pass leaves: that of the selected item, or the
      previous one when no valid item is selected. */
  function SelectedColumnHover(style: Style, anchor: Vec2, laid: seq<TextItem>, selected: int, previous: RectShape): RectShape {
    if 0 <= selected < |laid| then ColumnHover(style, anchor, laid[selected]) else previous
  }

  /** In a well-formed column every item lies inside the panel, one border
      below its top edge and at least one border above its bottom edge. */
  lemma ColumnInsidePanel(items: seq<TextItem>, border: real, anchor: Vec2, i: nat)
    requires NonNegative(Heights(items), border)
    requires i < |items|
    ensures var p := Column(items, border, anchor)[i].position;
      && anchor.y + border <= p.y
      && p.y + items[i].local.height <= anchor.y + PanelLength(Heights(items), border) - border
      && p.x == anchor.x + border
  {
    EntryInsidePanel(Heights(items), border, i);
  }

  /** In a well-formed column the items come in index order, each ending at
      least one border above the next one's top. */
  lemma ColumnInOrder(items: seq<TextItem>, border: real, anchor: Vec2, i: nat, j: nat)
    requires NonNegative(Heights(items), border)
    requires i < j < |items|
    ensures Column(items, border, anchor)[i].position.y + items[i].local.height + border
            <= Column(items, border, anchor)[j].position.y
  {
    EntriesSeparated(Heights(items), border, i, j);
  }

  /** A display pass recomputes every position from the measured heights, so
      it undoes an earlier `hide` and repeating it changes nothing. */
  lemma ColumnForgetsHide(items: seq<TextItem>, border: real, anchor: Vec2)
    ensures Column(Hidden(items), border, anchor) == Column(items, border, anchor)
    ensures Column(Column(items, border, anchor), border, anchor) == Column(items, border, anchor)
  {
    HiddenKeepsExtents(items);
    assert Heights(Column(items, border, anchor)) == Heights(items);
  }

  /** The highlight a display pass leaves over a valid selected item sits
      half a border above that item's top and bottom edges, lifted by
      `HoverLift`, and horizontally at the item's left edge. */
  lemma ColumnHoverFramesItem(style: Style, anchor: Vec2, items: seq<TextItem>, s: nat)
    requires s < |items|
    ensures var item := Column(items, style.border, anchor)[s];
      var r := ColumnHover(style, anchor, item);
      && r.position.x == item.position.x
      && r.position.y + HoverLift == item.position.y + style.border / 2.0
      && r.position.y + r.size.y + HoverLift == item.position.y + item.local.height + 3.0 * style.border / 2.0
  {
  }

  class VerticalMenu {
    const style: Style
    /** The press latch shared by every vertical menu of one item type. */
    const latch: PressLatch
    var items: seq<TextItem>
    var background: RectShape
    var hoverRect: RectShape
    var selectedIndex: int

    /** The hovered index is -1 or names an item. */
    ghost predicate Valid()
      reads this
    {
      -1 <= selectedIndex < |items|
    }

    /** A menu with no items, its panel at the origin with the style's size,
      and nothing hovered. */
    constructor (style: Style, latch: PressLatch)
      ensures this.style == style && this.latch == latch
      ensures items == [] && selectedIndex == -1
      ensures background == RectShape(Vec2(0.0, 0.0), Vec2(style.width, style.height))
      ensures hoverRect == RectShape(Vec2(0.0, 0.0), Vec2(0.0, 0.0))
      ensures Valid()
    {
      this.style := style;
      this.latch := latch;
      items := [];
      background := RectShape(Vec2(0.0, 0.0), Vec2(style.width, style.height));
      hoverRect := RectShape(Vec2(0.0, 0.0), Vec2(0.0, 0.0));
      selectedIndex := -1;
    }

    /** The constructor as written: it never initialises the hovered index,
      which then holds whatever `indeterminate` is. */
    constructor AsWritten(style: Style, latch: PressLatch, indeterminate: int)
      ensures this.style == style && this.latch == latch
      ensures items == [] && selectedIndex == indeterminate
      ensures background == RectShape(Vec2(0.0, 0.0), Vec2(style.width, style.height))
      ensures hoverRect == RectShape(Vec2(0.0, 0.0), Vec2(0.0, 0.0))
    {
      this.style := style;
      this.latch := latch;
      items := [];
      background := RectShape(Vec2(0.0, 0.0), Vec2(style.width, style.height));
      hoverRect := RectShape(Vec2(0.0, 0.0), Vec2(0.0, 0.0));
      selectedIndex := indeterminate;
    }

    /** Appends one item with the text's measured local bounds, at the
      default position; earlier items are untouched. */
    method AddItem(local: FloatRect)
      modifies this`items
      ensures items == old(items) + [TextItem(local, Vec2(0.0, 0.0))]
      ensures old(Valid()) ==> Valid()
    {
      items := items + [TextItem(local, Vec2(0.0, 0.0))];
    }

    /** The first loop of a display pass: the panel height, two borders plus
      every item's height and a border. */
    method ColumnHeight() returns (totalHeight: real)
      ensures totalHeight == PanelLength(Heights(items), style.border)
    {
      totalHeight := 2.0 * style.border;
      var k := 0;
      while k < |items|
        invariant 0 <= k <= |items|
        invariant totalHeight == 2.0 * style.border + Advance(Heights(items), style.border, k)
      {
        totalHeight := totalHeight + items[k].local.height + style.border;
        k := k + 1;
      }
    }

    /** Lays the column out from `anchor` and draws it. The panel is moved
      to the anchor and drawn with the size it already had; it is resized to
      the whole column only after the items are drawn. */
    method Display(window: Window, anchor: Vec2)
      modifies this`items, this`background, this`hoverRect, window`drawn
      ensures old(Valid()) ==> Valid()
      ensures background == RectShape(anchor, Vec2(style.width, PanelLength(Heights(old(items)), style.border)))
      ensures items == Column(old(items), style.border, anchor)
      ensures hoverRect == SelectedColumnHover(style, anchor, items, selectedIndex, old(hoverRect))
      ensures window.drawn == old(window.drawn) + [Panel(RectShape(anchor, old(background).size))]
                              + ItemDraws(items, selectedIndex, hoverRect, |items|)
    {
      var totalHeight := ColumnHeight();
      background := background.(position := anchor);
      window.Draw(Panel(background));
      PlaceItems(window, anchor);
      background := background.(size := Vec2(style.width, totalHeight));
    }

    /** The second loop of a display pass: walks the items top to bottom
      with a cursor starting one border in from the anchor, placing and
      drawing each. */
    method PlaceItems(window: Window, anchor: Vec2)
      modifies this`items, this`hoverRect, window`drawn
      ensures old(Valid()) ==> Valid()
      ensures items == Column(old(items), style.border, anchor)
      ensures hoverRect == SelectedColumnHover(style, anchor, items, selectedIndex, old(hoverRect))
      ensures window.drawn == old(window.drawn) + ItemDraws(items, selectedIndex, hoverRect, |items|)
    {
      ghost var orig := items;
      ghost var laid := Column(orig, style.border, anchor);
      ghost var hover := SelectedColumnHover(style, anchor, laid, selectedIndex, hoverRect);
      var startX := style.border + anchor.x;
      var startY := style.border + anchor.y;
      var i := 0;
      while i < |items|
        invariant LaidUpTo(items, laid, orig, i)
        invariant startX == anchor.x + style.border
        invariant startY == anchor.y + style.border + Advance(Heights(orig), style.border, i)
        invariant hoverRect == if 0 <= selectedIndex < i then hover else old(hoverRect)
        invariant window.drawn == old(window.drawn) + ItemDraws(laid, selectedIndex, hover, i)
      {
        assert laid[i] == orig[i].(position := Vec2(startX, startY));
        LaidUpToStep(items, laid, orig, i);
        ghost var before := window.drawn;
        startY := PlaceItem(window, anchor, i, startX, startY);
        assert ItemDraw(items, selectedIndex, hoverRect, i) == ItemDraw(laid, selectedIndex, hover, i);
        assert window.drawn == before + ItemDraw(laid, selectedIndex, hover, i);
        i := i + 1;
      }
      LaidUpToAll(items, laid, orig);
      assert i == |items|;
      assert hoverRect == hover;
      assert window.drawn == old(window.drawn) + ItemDraws(laid, selectedIndex, hover, |laid|);
    }

    /** One pass of the layout loop: moves item `i` to the cursor and
      advances the cursor past it; when it is the hovered item, sizes,
      places and draws the highlight, measuring back from the advanced
      cursor; then draws the item's text. */
    method PlaceItem(window: Window, anchor: Vec2, i: nat, startX: real, startY: real) returns (nextY: real)
      requires i < |items|
      modifies this`items, this`hoverRect, window`drawn
      ensures old(Valid()) ==> Valid()
      ensures items == old(items)[i := old(items)[i].(position := Vec2(startX, startY))]
      ensures nextY == startY + items[i].local.height + style.border
      ensures hoverRect == if i == selectedIndex then ColumnHover(style, anchor, items[i]) else old(hoverRect)
      ensures window.drawn == old(window.drawn) + ItemDraw(items, selectedIndex, hoverRect, i)
    {
      items := items[i := items[i].(position := Vec2(startX, startY))];
      nextY := startY + items[i].local.height + style.border;
      if i == selectedIndex {
        var hoverYOffset := HoverLift;
        var hoverRectStartY := nextY - items[i].local.height - style.border / 2.0 - hoverYOffset;
        var hoverWidth := Min(style.width - 2.0 * style.border, items[i].local.width + style.border);
        var hoverHeight := items[i].local.height + style.border;
        hoverRect := RectShape(Vec2(style.border + anchor.x, hoverRectStartY), Vec2(hoverWidth, hoverHeight));
        window.Draw(Highlight(hoverRect));
      }
      window.Draw(Label(i, items[i].position));
    }

    /** Parks every item off screen and draws each there; the panel is left
      as it was. */
    method Hide(window: Window)
      modifies this`items, window`drawn
      ensures old(Valid()) ==> Valid()
      ensures items == Hidden(old(items))
      ensures window.drawn == old(window.drawn) + seq(|items|, i => Label(i, OffScreen))
    {
      ghost var orig := items;
      var i := 0;
      while i < |items|
        invariant 0 <= i <= |items| == |orig|
        invariant forall j :: 0 <= j < i ==> items[j] == orig[j].(position := OffScreen)
        invariant forall j :: i <= j < |items| ==> items[j] == orig[j]
        invariant window.drawn == old(window.drawn) + seq(i, j => Label(j, OffScreen))
      {
        items := items[i := items[i].(position := OffScreen)];
        window.Draw(Label(i, items[i].position));
        assert seq(i + 1, j => Label(j, OffScreen)) == seq(i, j => Label(j, OffScreen)) + [Label(i, OffScreen)];
        i := i + 1;
      }
      assert items == Hidden(orig);
    }

    /** Scans the items in order and hovers the first one the mouse is
      over, or none. */
    method HandleInput(mouse: Vec2)
      modifies this`selectedIndex
      ensures selectedIndex == FirstHit(items, mouse)
      ensures Valid()
      ensures selectedIndex == -1 <==> forall i :: 0 <= i < |items| ==> !Hit(items, i, mouse)
      ensures selectedIndex != -1 ==>
        Hit(items, selectedIndex, mouse) && forall i :: 0 <= i < selectedIndex ==> !Hit(items, i, mouse)
    {
      selectedIndex := -1;
      var i := 0;
      while i < |items|
        invariant 0 <= i <= |items|
        invariant selectedIndex == -1
        invariant forall j :: 0 <= j < i ==> !Hit(items, j, mouse)
      {
        if Contains(GlobalBounds(items[i]), mouse) {
          assert Hit(items, i, mouse);
          selectedIndex := i;
          break;
        }
        i := i + 1;
      }
      FirstHitUnique(items, mouse, selectedIndex);
    }

    /** Whether the mouse is over any item, whatever the button does. */
    method ItemsClicked(mouse: Vec2) returns (over: bool)
      ensures over <==> exists i :: 0 <= i < |items| && Hit(items, i, mouse)
      ensures over <==> FirstHit(items, mouse) != -1
    {
      var i := 0;
      while i < |items|
        invariant 0 <= i <= |items|
        invariant forall j :: 0 <= j < i ==> !Hit(items, j, mouse)
      {
        if Contains(GlobalBounds(items[i]), mouse) {
          assert Hit(items, i, mouse);
          return true;
        }
        i := i + 1;
      }
      return false;
    }

    /** The click edge detector over item `index`, on the shared latch. */
    method ItemClicked(index: int, mouse: Vec2, pressed: bool) returns (clicked: bool)
      modifies latch`wasPressed
      ensures old(Valid()) ==> Valid()
      ensures ClickOutcome(clicked, latch.wasPressed)
              == ClickStep(old(latch.wasPressed), ClickCall(0 <= index < |items|, pressed, Hit(items, index, mouse)))
      ensures !(0 <= index < |items|) ==> !clicked && latch.wasPressed == old(latch.wasPressed)
      ensures clicked <==> pressed && !old(latch.wasPressed) && Hit(items, index, mouse)
      ensures clicked ==> latch.wasPressed
      ensures 0 <= index < |items| && !pressed ==> !latch.wasPressed
      ensures pressed ==> latch.wasPressed == (old(latch.wasPressed) || clicked)
    {
      if index < 0 || index >= |items| {
        return false;
      }
      if pressed {
        if !latch.wasPressed {
          if Contains(GlobalBounds(items[index]), mouse) {
            latch.wasPressed := true;
            return true;
          }
        }
      } else {
        latch.wasPressed := false;
      }
      return false;
    }
  }
}
