/** Client code driving the menus the way an application's frame loop does,
    with concrete measurements; what each returns follows from the menus'
    contracts alone. */
module Scenarios {
  import opened Geometry
  import opened Layout
  import opened Canvas
  import opened Latch
  import opened Horizontal
  import opened Vertical

  /** A label the text service measured as 30 by 16 with no offset. */
  const Word: FloatRect := FloatRect(0.0, 0.0, 30.0, 16.0)
  /** The style of the scenarios: 200 by 40, border 5. */
  const Box: Style := Style(200.0, 40.0, 5.0)

  /** One latch serves every horizontal menu of an item type: a press that
      fires on one menu suppresses the same held press on another, while a
      vertical menu, with a latch of its own, still fires. */
  method SharedLatchAcrossMenus() returns (first: bool, second: bool, vertical: bool)
    ensures first && !second && vertical
  {
    var horizontalLatch := new PressLatch();
    var verticalLatch := new PressLatch();
    var a := new HorizontalMenu(Box, horizontalLatch);
    var b := new HorizontalMenu(Box, horizontalLatch);
    var v := new VerticalMenu(Box, verticalLatch);
    a.AddTextItem(Word);
    b.AddTextItem(Word);
    v.AddItem(Word);
    var mouse := Vec2(1.0, 1.0);
    first := a.ItemClicked(0, mouse, true);
    second := b.ItemClicked(0, mouse, true);
    vertical := v.ItemClicked(0, mouse, true);
  }

  /** Holding the button over an item fires once; releasing it over the
      item rearms the latch and the next press fires again. An out-of-range
      index answers false and, with the button up, does not rearm. */
  method HoldReleasePress() returns (r: seq<bool>)
    ensures r == [true, false, false, false, false, true]
  {
    var latch := new PressLatch();
    var m := new HorizontalMenu(Box, latch);
    m.AddTextItem(Word);
    var over := Vec2(1.0, 1.0);
    var c0 := m.ItemClicked(0, over, true);
    var c1 := m.ItemClicked(0, over, true);
    var c2 := m.ItemClicked(7, over, false);
    var c3 := m.ItemClicked(0, over, true);
    var c4 := m.ItemClicked(0, over, false);
    var c5 := m.ItemClicked(0, over, true);
    r := [c0, c1, c2, c3, c4, c5];
  }

  /** Three items in a row: the panel is two borders plus each width and a
      border, and the items start one border in from the anchor. */
  method ThreeItemRow(wFile: real, wEdit: real, wView: real) returns (panelWidth: real, xs: seq<real>)
    ensures panelWidth == 10.0 + (wFile + 5.0) + (wEdit + 5.0) + (wView + 5.0)
    ensures xs == [25.0, 25.0 + wFile + 5.0, 25.0 + wFile + 5.0 + wEdit + 5.0]
  {
    var latch := new PressLatch();
    var m := new HorizontalMenu(Box, latch);
    m.AddTextItem(FloatRect(0.0, 0.0, wFile, 16.0));
    m.AddTextItem(FloatRect(0.0, 0.0, wEdit, 16.0));
    m.AddTextItem(FloatRect(0.0, 0.0, wView, 16.0));
    m.SetPosition(20.0, 30.0);
    var window := new Window();
    m.StaticDisplay(window);
    var bg := m.GetBackground();
    panelWidth := bg.size.x;
    xs := [m.items[0].position.x, m.items[1].position.x, m.items[2].position.x];
  }

  /** A vertical menu with no items: the first display draws the panel with
      the size given at construction, and only afterwards resizes it to two
      borders tall; no highlight and no text is drawn. */
  method EmptyColumnFirstFrame() returns (drawn: seq<Drawable>, after: RectShape)
    ensures drawn == [Panel(RectShape(Vec2(0.0, 0.0), Vec2(200.0, 40.0)))]
    ensures after == RectShape(Vec2(0.0, 0.0), Vec2(200.0, 10.0))
  {
    var latch := new PressLatch();
    var m := new VerticalMenu(Box, latch);
    var window := new Window();
    m.Display(window, Vec2(0.0, 0.0));
    drawn := window.drawn;
    after := m.background;
  }

  /** Three words as `addTextItem` leaves them, before any layout. */
  const FreshWords: seq<TextItem> :=
    [TextItem(Word, Vec2(0.0, 0.0)), TextItem(Word, Vec2(0.0, 0.0)), TextItem(Word, Vec2(0.0, 0.0))]

  /** The same three words laid out in a row at the origin with border 5. */
  const WordRow: seq<TextItem> :=
    [TextItem(Word, Vec2(5.0, 5.0)), TextItem(Word, Vec2(40.0, 5.0)), TextItem(Word, Vec2(75.0, 5.0))]

  /** Each word is 30 wide, so the row advances by 35 per word. */
  lemma WordsLaidOut()
    ensures Row(FreshWords, 5.0, Vec2(0.0, 0.0)) == WordRow
  {
    assert Widths(FreshWords) == [30.0, 30.0, 30.0];
    assert Advance([30.0, 30.0, 30.0], 5.0, 1) == 35.0;
    assert Advance([30.0, 30.0, 30.0], 5.0, 2) == 70.0;
  }

  /** A mouse at (45, 10) is over the second word only; one at (300, 300)
      is over none. */
  lemma WordRowHits()
    ensures FirstHit(WordRow, Vec2(45.0, 10.0)) == 1
    ensures FirstHit(WordRow, Vec2(300.0, 300.0)) == -1
  {
    assert !Hit(WordRow, 0, Vec2(45.0, 10.0)) && Hit(WordRow, 1, Vec2(45.0, 10.0));
    var away := Vec2(300.0, 300.0);
    assert !Hit(WordRow, 0, away) && !Hit(WordRow, 1, away) && !Hit(WordRow, 2, away);
  }

  /** The mouse over the second of three laid-out items hovers it; moved
      off every item, it hovers none. */
  method HoverThenLeave() returns (before: int, after: int)
    ensures before == 1 && after == -1
  {
    var latch := new PressLatch();
    var m := new HorizontalMenu(Box, latch);
    m.AddTextItem(Word);
    m.AddTextItem(Word);
    m.AddTextItem(Word);
    assert m.items == FreshWords;
    var window := new Window();
    m.StaticDisplay(window);
    WordsLaidOut();
    WordRowHits();
    m.HandleHover(Vec2(45.0, 10.0));
    before := m.GetSelectedIndex();
    m.HandleHover(Vec2(300.0, 300.0));
    after := m.GetSelectedIndex();
  }

  /** As written, a horizontal menu whose hovered index happens to hold 0
      paints a highlight on its first frame, before any hover update. */
  method UninitialisedRowHighlights() returns (highlighted: bool)
    ensures highlighted
  {
    var latch := new PressLatch();
    var m := new HorizontalMenu.AsWritten(Box, latch, 0);
    m.AddTextItem(Word);
    var window := new Window();
    m.StaticDisplay(window);
    highlighted := |window.drawn| == 3 && window.drawn[1].Highlight?;
  }

  /** With the hovered index initialised to -1, the first frame draws only
      the panel and the text. */
  method InitialisedRowPlain() returns (drawn: seq<Drawable>)
    ensures |drawn| == 2 && drawn[0].Panel? && drawn[1] == Label(0, Vec2(5.0, 5.0))
  {
    var latch := new PressLatch();
    var m := new HorizontalMenu(Box, latch);
    m.AddTextItem(Word);
    var window := new Window();
    m.StaticDisplay(window);
    drawn := window.drawn;
  }

  /** As written, a vertical menu whose hovered index happens to hold 0
      paints a highlight on its first frame, before any hover update. */
  method UninitialisedColumnHighlights() returns (highlighted: bool)
    ensures highlighted
  {
    var latch := new PressLatch();
    var m := new VerticalMenu.AsWritten(Box, latch, 0);
    m.AddItem(Word);
    var window := new Window();
    m.Display(window, Vec2(0.0, 0.0));
    highlighted := |window.drawn| == 3 && window.drawn[1].Highlight?;
  }

  /** With the hovered index initialised to -1, the first frame draws only
      the panel and the text. */
  method InitialisedColumnPlain() returns (drawn: seq<Drawable>)
    ensures |drawn| == 2 && drawn[0].Panel? && drawn[1] == Label(0, Vec2(5.0, 5.0))
  {
    var latch := new PressLatch();
    var m := new VerticalMenu(Box, latch);
    m.AddItem(Word);
    var window := new Window();
    m.Display(window, Vec2(0.0, 0.0));
    drawn := window.drawn;
  }
}
