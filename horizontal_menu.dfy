/** `HorizontalMenu`: items laid out left to right from an anchor set with
    `setPosition`, a background panel as wide as the row, and a hover
    highlight behind the hovered item. */
module Horizontal {
  import opened Geometry
  import opened Layout
  import opened Canvas
  import opened Latch

  /** Horizontal shift of the highlight (zero in the original). */
  const HoverXOffset: real := 0.0
  /** Fixed upward adjustment of the highlight. */
  const HoverLift: real := 15.0

  /** Where `staticDisplay` puts every item: item `i` at one border plus the
      widths and borders of the items before it right of the anchor, one
      border below it. */
  function Row(items: seq<TextItem>, border: real, anchor: Vec2): (r: seq<TextItem>)
    ensures |r| == |items|
    ensures |r| > 0 ==> r[0].position == Vec2(anchor.x + border, anchor.y + border)
  {
    seq(|items|, i requires 0 <= i < |items| =>
      items[i].(position := Vec2(anchor.x + border + Advance(Widths(items), border, i), anchor.y + border)))
  }

  /** The highlight behind a laid-out item: no wider than the panel's inner
      width, one border larger than the text, starting half a border left of
      it, and vertically centred in the panel height less `HoverLift`. */
  function RowHover(style: Style, anchor: Vec2, item: TextItem): (r: RectShape)
    ensures r.size.x <= style.width - 2.0 * style.border && r.size.x <= item.local.width + style.border
    ensures r.size.x == style.width - 2.0 * style.border || r.size.x == item.local.width + style.border
    ensures r.size.y == item.local.height + style.border
  {
    var w := Min(style.width - 2.0 * style.border, item.local.width + style.border);
    var h := item.local.height + style.border;
    RectShape(Vec2(item.position.x - style.border / 2.0 - HoverXOffset,
                   anchor.y + style.border + (style.height - h) / 2.0 - HoverLift),
              Vec2(w, h))
  }

  /** The highlight a display pass leaves: that of the selected item, or the
      previous one when no valid item is selected. */
  function SelectedRowHover(style: Style, anchor: Vec2, laid: seq<TextItem>, selected: int, previous: RectShape): RectShape {
    if 0 <= selected < |laid| then RowHover(style, anchor, laid[selected]) else previous
  }

  /** In a well-formed row every item lies inside the panel, one border in
      from its left edge and at least one border in from its right edge. */
  lemma RowInsidePanel(items: seq<TextItem>, border: real, anchor: Vec2, i: nat)
    requires NonNegative(Widths(items), border)
    requires i < |items|
    ensures var p := Row(items, border, anchor)[i].position;
      && anchor.x + border <= p.x
      && p.x + items[i].local.width <= anchor.x + PanelLength(Widths(items), border) - border
      && p.y == anchor.y + border
  {
    EntryInsidePanel(Widths(items), border, i);
  }

  /** In a well-formed row the items come in index order, each ending at
      least one border before the next one starts. */
  lemma RowInOrder(items: seq<TextItem>, border: real, anchor: Vec2, i: nat, j: nat)
    requires NonNegative(Widths(items), border)
    requires i < j < |items|
    ensures Row(items, border, anchor)[i].position.x + items[i].local.width + border
            <= Row(items, border, anchor)[j].position.x
  {
    EntriesSeparated(Widths(items), border, i, j);
  }

  /** A display pass recomputes every position from the measured widths, so
      it undoes an earlier `hide` and repeating it changes nothing. */
  lemma RowForgetsHide(items: seq<TextItem>, border: real, anchor: Vec2)
    ensures Row(Hidden(items), border, anchor) == Row(items, border, anchor)
    ensures Row(Row(items, border, anchor), border, anchor) == Row(items, border, anchor)
  {
    HiddenKeepsExtents(items);
    assert Widths(Row(items, border, anchor)) == Widths(items);
  }

  /** The highlight's vertical centre does not depend on the item: it is the
      panel's centre line, one border down, lifted by `HoverLift`; it starts
      half a border left of its item. */
  lemma RowHoverCentred(style: Style, anchor: Vec2, item: TextItem)
    ensures var r := RowHover(style, anchor, item);
      && r.position.y + r.size.y / 2.0 == anchor.y + style.border + style.height / 2.0 - HoverLift
      && r.position.x == item.position.x - style.border / 2.0
      && r.size.x <= style.width - 2.0 * style.border
  {
  }

  class HorizontalMenu {
    const style: Style
    /** The press latch shared by every horizontal menu of one item type. */
    const latch: PressLatch
    var items: seq<TextItem>
    var background: RectShape
    var hoverRect: RectShape
    var position: Vec2
    var selectedIndex: int

    /** The hovered index is -1 or names an item. */
    ghost predicate Valid()
      reads this
    {
      -1 <= selectedIndex < |items|
    }

    /** A menu with no items, its panel at the origin with the style's size,
      and nothing hovered. */
    constructor (style: Style, latch: PressLatch)
      ensures this.style == style && this.latch == latch
      ensures items == [] && selectedIndex == -1 && position == Vec2(0.0, 0.0)
      ensures background == RectShape(Vec2(0.0, 0.0), Vec2(style.width, style.height))
      ensures hoverRect == RectShape(Vec2(0.0, 0.0), Vec2(0.0, 0.0))
      ensures Valid()
    {
      this.style := style;
      this.latch := latch;
      items := [];
      background := RectShape(Vec2(0.0, 0.0), Vec2(style.width, style.height));
      hoverRect := RectShape(Vec2(0.0, 0.0), Vec2(0.0, 0.0));
      position := Vec2(0.0, 0.0);
      selectedIndex := -1;
    }

    /** The constructor as written: it never initialises the hovered index,
      which then holds whatever `indeterminate` is. */
    constructor AsWritten(style: Style, latch: PressLatch, indeterminate: int)
      ensures this.style == style && this.latch == latch
      ensures items == [] && selectedIndex == indeterminate && position == Vec2(0.0, 0.0)
      ensures background == RectShape(Vec2(0.0, 0.0), Vec2(style.width, style.height))
      ensures hoverRect == RectShape(Vec2(0.0, 0.0), Vec2(0.0, 0.0))
    {
      this.style := style;
      this.latch := latch;
      items := [];
      background := RectShape(Vec2(0.0, 0.0), Vec2(style.width, style.height));
      hoverRect := RectShape(Vec2(0.0, 0.0), Vec2(0.0, 0.0));
      position := Vec2(0.0, 0.0);
      selectedIndex := indeterminate;
    }

    /** Appends one item with the text's measured local bounds, at the
      default position; earlier items are untouched. */
    method AddTextItem(local: FloatRect)
      modifies this`items
      ensures items == old(items) + [TextItem(local, Vec2(0.0, 0.0))]
      ensures old(Valid()) ==> Valid()
    {
      items := items + [TextItem(local, Vec2(0.0, 0.0))];
    }

    /** The first loop of a display pass: the panel width, two borders plus
      every item's width and a border. */
    method RowWidth() returns (totalWidth: real)
      ensures totalWidth == PanelLength(Widths(items), style.border)
    {
      totalWidth := 2.0 * style.border;
      var k := 0;
      while k < |items|
        invariant 0 <= k <= |items|
        invariant totalWidth == 2.0 * style.border + Advance(Widths(items), style.border, k)
      {
        totalWidth := totalWidth + items[k].local.width + style.border;
        k := k + 1;
      }
    }

    /** Lays the row out from the anchor and draws it: the panel first, sized
      to the whole row; then, item by item, the highlight when it is the
      hovered one, and the item's text. */
    method StaticDisplay(window: Window)
      modifies this`items, this`background, this`hoverRect, window`drawn
      ensures old(Valid()) ==> Valid()
      ensures background == RectShape(position, Vec2(PanelLength(Widths(old(items)), style.border), style.height))
      ensures items == Row(old(items), style.border, position)
      ensures hoverRect == SelectedRowHover(style, position, items, selectedIndex, old(hoverRect))
      ensures window.drawn == old(window.drawn) + [Panel(background)]
                              + ItemDraws(items, selectedIndex, hoverRect, |items|)
    {
      var totalWidth := RowWidth();
      background := RectShape(position, Vec2(totalWidth, style.height));
      window.Draw(Panel(background));
      PlaceItems(window);
    }

    /** The second loop of a display pass: walks the items left to right
      with a cursor starting one border in from the anchor, placing and
      drawing each. */
    method PlaceItems(window: Window)
      modifies this`items, this`hoverRect, window`drawn
      ensures old(Valid()) ==> Valid()
      ensures items == Row(old(items), style.border, position)
      ensures hoverRect == SelectedRowHover(style, position, items, selectedIndex, old(hoverRect))
      ensures window.drawn == old(window.drawn) + ItemDraws(items, selectedIndex, hoverRect, |items|)
    {
      ghost var orig := items;
      ghost var laid := Row(orig, style.border, position);
      ghost var hover := SelectedRowHover(style, position, laid, selectedIndex, hoverRect);
      var startX := style.border + position.x;
      var startY := style.border + position.y;
      var i := 0;
      while i < |items|
        invariant LaidUpTo(items, laid, orig, i)
        invariant startX == position.x + style.border + Advance(Widths(orig), style.border, i)
        invariant startY == position.y + style.border
        invariant hoverRect == if 0 <= selectedIndex < i then hover else old(hoverRect)
        invariant window.drawn == old(window.drawn) + ItemDraws(laid, selectedIndex, hover, i)
      {
        assert laid[i] == orig[i].(position := Vec2(startX, startY));
        LaidUpToStep(items, laid, orig, i);
        ghost var before := window.drawn;
        PlaceItem(window, i, startX, startY);
        assert ItemDraw(items, selectedIndex, hoverRect, i) == ItemDraw(laid, selectedIndex, hover, i);
        assert window.drawn == before + ItemDraw(laid, selectedIndex, hover, i);
        startX := startX + items[i].local.width + style.border;
        i := i + 1;
      }
      LaidUpToAll(items, laid, orig);
      assert i == |items|;
      assert hoverRect == hover;
      assert window.drawn == old(window.drawn) + ItemDraws(laid, selectedIndex, hover, |laid|);
    }

    /** One pass of the layout loop: moves item `i` to the cursor; when it
      is the hovered item, sizes, places and draws the highlight; then draws
      the item's text. */
    method PlaceItem(window: Window, i: nat, startX: real, startY: real)
      requires i < |items|
      modifies this`items, this`hoverRect, window`drawn
      ensures old(Valid()) ==> Valid()
      ensures items == old(items)[i := old(items)[i].(position := Vec2(startX, startY))]
      ensures hoverRect == if i == selectedIndex then RowHover(style, position, items[i]) else old(hoverRect)
      ensures window.drawn == old(window.drawn) + ItemDraw(items, selectedIndex, hoverRect, i)
    {
      items := items[i := items[i].(position := Vec2(startX, startY))];
      if i == selectedIndex {
        var hoverRectStartX := startX - style.border / 2.0 - HoverXOffset;
        var hoverWidth := Min(style.width - 2.0 * style.border, items[i].local.width + style.border);
        var hoverHeight := items[i].local.height + style.border;
        var hoverYOffset := (style.height - hoverHeight) / 2.0;
        hoverRect := RectShape(
          Vec2(hoverRectStartX, position.y + style.border + hoverYOffset - HoverLift),
          Vec2(hoverWidth, hoverHeight));
        window.Draw(Highlight(hoverRect));
      }
      window.Draw(Label(i, items[i].position));
    }

    /** Sets the anchor later display and hide calls use; nothing moves yet. */
    method SetPosition(x: real, y: real)
      modifies this`position
      ensures old(Valid()) ==> Valid()
      ensures position == Vec2(x, y)
    {
      position := Vec2(x, y);
    }

    /** Parks every item off screen and draws the panel collapsed to zero
      width at the anchor. */
    method Hide(window: Window)
      modifies this`items, this`background, window`drawn
      ensures old(Valid()) ==> Valid()
      ensures items == Hidden(old(items))
      ensures background == RectShape(position, Vec2(0.0, style.height))
      ensures window.drawn == old(window.drawn) + [Panel(background)]
    {
      ghost var orig := items;
      var i := 0;
      while i < |items|
        invariant 0 <= i <= |items| == |orig|
        invariant forall j :: 0 <= j < i ==> items[j] == orig[j].(position := OffScreen)
        invariant forall j :: i <= j < |items| ==> items[j] == orig[j]
        invariant background == old(background) && window.drawn == old(window.drawn)
      {
        items := items[i := items[i].(position := OffScreen)];
        i := i + 1;
      }
      assert items == Hidden(orig);
      background := RectShape(position, Vec2(0.0, style.height));
      window.Draw(Panel(background));
    }

    /** The hovered index, -1 when no item is hovered. */
    method GetSelectedIndex() returns (r: int)
      ensures r == selectedIndex
      ensures Valid() ==> -1 <= r < |items|
    {
      r := selectedIndex;
    }

    /** A copy of the panel geometry. */
    method GetBackground() returns (r: RectShape)
      ensures r == background
    {
      r := background;
    }

    /** Scans the items in order and hovers the first one the mouse is
      over, or none. */
    method HandleHover(mouse: Vec2)
      modifies this`selectedIndex
      ensures selectedIndex == FirstHit(items, mouse)
      ensures Valid()
      ensures selectedIndex == -1 <==> forall i :: 0 <= i < |items| ==> !Hit(items, i, mouse)
      ensures selectedIndex != -1 ==>
        Hit(items, selectedIndex, mouse) && forall i :: 0 <= i < selectedIndex ==> !Hit(items, i, mouse)
    {
      selectedIndex := -1;
      var i := 0;
      while i < |items|
        invariant 0 <= i <= |items|
        invariant selectedIndex == -1
        invariant forall j :: 0 <= j < i ==> !Hit(items, j, mouse)
      {
        if Contains(GlobalBounds(items[i]), mouse) {
          assert Hit(items, i, mouse);
          selectedIndex := i;
          break;
        }
        i := i + 1;
      }
      FirstHitUnique(items, mouse, selectedIndex);
    }

    /** Whether the mouse is over any item, whatever the button does. */
    method ItemsClicked(mouse: Vec2) returns (over: bool)
      ensures over <==> exists i :: 0 <= i < |items| && Hit(items, i, mouse)
      ensures over <==> FirstHit(items, mouse) != -1
    {
      var i := 0;
      while i < |items|
        invariant 0 <= i <= |items|
        invariant forall j :: 0 <= j < i ==> !Hit(items, j, mouse)
      {
        if Contains(GlobalBounds(items[i]), mouse) {
          assert Hit(items, i, mouse);
          return true;
        }
        i := i + 1;
      }
      return false;
    }

    /** The click edge detector over item `index`, on the shared latch. */
    method ItemClicked(index: int, mouse: Vec2, pressed: bool) returns (clicked: bool)
      modifies latch`wasPressed
      ensures old(Valid()) ==> Valid()
      ensures ClickOutcome(clicked, latch.wasPressed)
              == ClickStep(old(latch.wasPressed), ClickCall(0 <= index < |items|, pressed, Hit(items, index, mouse)))
      ensures !(0 <= index < |items|) ==> !clicked && latch.wasPressed == old(latch.wasPressed)
      ensures clicked <==> pressed && !old(latch.wasPressed) && Hit(items, index, mouse)
      ensures clicked ==> latch.wasPressed
      ensures 0 <= index < |items| && !pressed ==> !latch.wasPressed
      ensures pressed ==> latch.wasPressed == (old(latch.wasPressed) || clicked)
    {
      if index < 0 || index >= |items| {
        return false;
      }
      if pressed {
        if !latch.wasPressed {
          if Contains(GlobalBounds(items[index]), mouse) {
            latch.wasPressed := true;
            return true;
          }
        }
      } else {
        latch.wasPressed := false;
      }
      return false;
    }
  }
}
