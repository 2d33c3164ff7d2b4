# SFML menu widgets, modelled in Dafny

A model of the two menu widgets of SFML_GUI, `HorizontalMenu<T>` and
`VerticalMenu<T>`. Each draws a background panel, lays its text items out
along one axis, highlights the item under the mouse and answers click
queries. The model covers the logic under the drawing calls:

- the layout arithmetic of a display pass (panel size, item positions,
  highlight rectangle);
- the hover hit-test that picks the first item under the mouse;
- the click edge detector around the press latch;
- hide, which parks every item off screen.

Modules, one per concern:

- `Geometry` (`geometry.dfy`): points, `FloatRect`, rectangle shapes and
  text items. `Contains` is the assumed semantics of `FloatRect::contains`.
  `GlobalBounds` is an item's local bounds moved by its position. `FirstHit`
  is the first item under the mouse, or -1.
- `Layout` (`layout.dfy`): the style (width, height, border). `Advance` is
  the cursor after the first `i` items: each item adds its extent plus one
  border. `PanelLength` adds two borders to the whole advance. Lemmas show
  the cursor only moves forward, items do not overlap, and every item lies
  inside the panel.
- `Canvas` (`canvas.dfy`): a `Window` that records each `window.draw` call
  in order. `ItemDraws` is what a display pass draws per item.
- `Latch` (`latch.dfy`): the `PressLatch` object. `ClickStep` is one
  `itemClicked` call, branch for branch. `Responses` is a run of calls
  sharing one latch. Lemmas give the edge-detector guarantees.
- `Horizontal` (`horizontal_menu.dfy`) and `Vertical` (`vertical_menu.dfy`):
  the two widgets as classes. Their fields are the C++ members: items,
  background, hover rectangle, anchor (horizontal only), selected index.
  `Row` and `Column` give the layout a display pass produces.
  `RowHover` and `ColumnHover` give the highlight.
- `Scenarios` (`scenarios.dfy`): client code with concrete measurements,
  proved from the contracts alone.

Inputs the original reads from devices or libraries are parameters here:

- the mouse position, already mapped to logical coordinates;
- the left-button state;
- each text's measured local bounds, given to `AddTextItem`/`AddItem`.

In C++ the press latch is a function-local `static bool`. So every
`HorizontalMenu<T>` of one `T` shares one flag, and every `VerticalMenu<T>`
shares another. In the model it is a `PressLatch` object that a menu
receives at construction. Menus that should share a flag are given the same
object. `Responses` runs may interleave calls on any menus that share one
latch.

Two consequences of the code's order of operations:

- A zero-item vertical menu's first `display` draws the panel at the
  constructor's size. The two-border height shows from the next frame,
  because the resize follows the draw (`Vertical.VerticalMenu.Display`,
  `Scenarios.EmptyColumnFirstFrame`).
- `hide` does not disturb later layout: every display pass recomputes every
  position from the measured extents (`Horizontal.RowForgetsHide`,
  `Vertical.ColumnForgetsHide`).

## Model

| member | source | states |
|---|---|---|
| `Geometry.Contains` | src/horizontalMenu.hpp:149 | the assumed `FloatRect::contains`: for a rectangle of non-negative size, the left and top edges are inside and the right and bottom edges outside; a rectangle of zero width or height contains nothing |
| `Geometry.GlobalBounds` | src/horizontalMenu.hpp:164 | `getGlobalBounds` of an untransformed text: the local bounds' size, moved by the item's position |
| `Geometry.FirstHitFrom` | src/horizontalMenu.hpp:148-153 | scanning from `k`, the result is -1 exactly when no item from `k` on is under the mouse; otherwise it is the first such item |
| `Geometry.FirstHit` | src/horizontalMenu.hpp:147-153 | the hovered index lies in [-1, n); it is -1 iff no item's global bounds contain the mouse, else the smallest index whose bounds do |
| `Geometry.FirstHitUnique` | src/verticalMenu.hpp:118-124 | any index meeting the hover characterisation is `FirstHit`, so the scan has exactly one correct answer |
| `Geometry.Hidden` | src/horizontalMenu.hpp:112-116 | the items as the hide loops leave them (also src/verticalMenu.hpp:101-106): the same number of items, each at (−10000, −10000) with its measured bounds kept |
| `Layout.Advance` | src/horizontalMenu.hpp:96 | the layout cursor after the first i items (the `startX`/`startY` increments, also src/verticalMenu.hpp:77); never negative in a well-formed layout |
| `Layout.PanelLength` | src/horizontalMenu.hpp:66-69 | the panel length the first loop accumulates (also src/verticalMenu.hpp:62-65): exactly two borders with no items, and at least two borders in a well-formed layout |
| `Layout.AdvanceMonotone` | src/horizontalMenu.hpp:96 | with a non-negative border and extents, the layout cursor never moves backwards |
| `Layout.EntriesSeparated` | src/verticalMenu.hpp:77 | an item ends at least one border before any later item starts |
| `Layout.EntryInsidePanel` | src/horizontalMenu.hpp:66-69 | every item ends at least one border before the far edge of a panel of length 2·border + Σ(extent + border) |
| `Layout.HiddenKeepsExtents` | src/verticalMenu.hpp:103-106 | parking items off screen leaves their measured widths and heights unchanged |
| `Canvas.Window.constructor` | src/horizontalMenu.hpp:64 | `Window` stands for the caller's `sf::RenderWindow` parameter; a fresh one has drawn nothing |
| `Canvas.Window.Draw` | src/horizontalMenu.hpp:95 | each draw call appends exactly one drawable to the window's record |
| `Canvas.ItemDrawsOrder` | src/horizontalMenu.hpp:83-95 | a display pass draws every item's text in index order; the highlight is drawn once iff the selected index is valid, right before that item's text |
| `Latch.PressLatch.constructor` | src/horizontalMenu.hpp:175 | the latch starts clear |
| `Latch.ClickStep` | src/horizontalMenu.hpp:177-196 | one `itemClicked` call (also src/verticalMenu.hpp:148-167): it fires iff the index is valid, the button is down, the latch is clear and the mouse is over the item; the latch is set afterwards iff the call fired or it was set and no release was observed |
| `Latch.Responses` | src/horizontalMenu.hpp:173-197 | a run of itemClicked calls gives exactly one answer per call |
| `Latch.LatchedNeedsRelease` | src/horizontalMenu.hpp:181-194 | from a set latch, no call fires until some earlier call has seen a valid index with the button released |
| `Latch.ReleaseBetweenClicks` | src/verticalMenu.hpp:152-167 | between any two calls that fire, some call in between saw the button released with a valid index |
| `Latch.HeldFiresAtMostOnce` | src/verticalMenu.hpp:152-167 | while no call sees a release, at most one call fires, and none fires if the latch was already set |
| `Latch.HoldingOverFiresOnce` | src/horizontalMenu.hpp:181-190 | holding the button over a valid item from a clear latch fires on the first call only, and leaves the latch set |
| `Latch.HeldLatchStays` | src/horizontalMenu.hpp:181-191 | a set latch stays set through every call that does not see a release |
| `Latch.ReleaseRearms` | src/horizontalMenu.hpp:192-194 | after a call that sees a release, the latch is clear and the next press over a valid item fires |
| `Latch.LatchAfterAppend` | src/verticalMenu.hpp:146-167 | the latch after one more call is that call's step from the latch before it |
| `Horizontal.Row` | src/horizontalMenu.hpp:76-96 | the row a display pass lays out: one item per item, the first exactly one border right of and below the anchor |
| `Horizontal.RowHover` | src/horizontalMenu.hpp:84-90 | the highlight behind an item: as wide as the narrower of the panel's inner width and the text plus a border, and one border taller than the text |
| `Horizontal.RowInsidePanel` | src/horizontalMenu.hpp:66-81 | in a well-formed row, each item starts at least one border right of the anchor, ends at least one border before the panel's right edge, and sits one border below the anchor |
| `Horizontal.RowInOrder` | src/horizontalMenu.hpp:76-96 | items are laid out left to right with at least one border between neighbours |
| `Horizontal.RowForgetsHide` | src/horizontalMenu.hpp:112-116 | staticDisplay's layout is the same after a hide, and laying out twice changes nothing |
| `Horizontal.RowHoverCentred` | src/horizontalMenu.hpp:84-90 | the highlight starts half a border left of its item, is no wider than width − 2·border, and is centred on anchor.y + border + height/2 − 15 |
| `Horizontal.HorizontalMenu.constructor` | src/horizontalMenu.hpp:37-48 | no items; panel of the style's size at the origin; anchor at the origin; selected index −1 |
| `Horizontal.HorizontalMenu.AsWritten` | src/horizontalMenu.hpp:37-48 | the constructor as written, with the never-initialised selected index holding an arbitrary value |
| `Horizontal.HorizontalMenu.AddTextItem` | src/horizontalMenu.hpp:52-60 | appends exactly one item with the measured bounds at the default position; earlier items are unchanged |
| `Horizontal.HorizontalMenu.RowWidth` | src/horizontalMenu.hpp:66-69 | the first loop's total is two borders plus each item's width and a border |
| `Horizontal.HorizontalMenu.StaticDisplay` | src/horizontalMenu.hpp:64-98 | panel at the anchor, sized (2·border + Σ(wᵢ + border), height); item i at (anchor.x + border + Σ_{j<i}(w_j + border), anchor.y + border); highlight only for the selected item; draws the panel, then for each item the highlight (if selected) and its text |
| `Horizontal.HorizontalMenu.PlaceItems` | src/horizontalMenu.hpp:76-97 | the second loop leaves every item at its row position, the highlight of the selected item (or the previous one), and draws, per item in order, the highlight when selected and then the text |
| `Horizontal.HorizontalMenu.PlaceItem` | src/horizontalMenu.hpp:80-95 | one pass moves only item i to the cursor; when i is the selected index the highlight becomes that item's row highlight and is drawn before the text, otherwise it is kept |
| `Horizontal.HorizontalMenu.SetPosition` | src/horizontalMenu.hpp:102-106 | sets the anchor and nothing else |
| `Horizontal.HorizontalMenu.Hide` | src/horizontalMenu.hpp:110-122 | every item moves to (−10000, −10000); the panel becomes size (0, height) at the anchor and is drawn |
| `Horizontal.HorizontalMenu.GetSelectedIndex` | src/horizontalMenu.hpp:126-129 | returns the hovered index, which is in [−1, n) while the invariant holds |
| `Horizontal.HorizontalMenu.GetBackground` | src/horizontalMenu.hpp:133-136 | returns the panel geometry |
| `Horizontal.HorizontalMenu.HandleHover` | src/horizontalMenu.hpp:140-154 | the selected index becomes −1 when no item is under the mouse, else the first item that is; it ends in [−1, n) |
| `Horizontal.HorizontalMenu.ItemsClicked` | src/horizontalMenu.hpp:158-169 | true iff some item's global bounds contain the mouse; no state changes |
| `Horizontal.HorizontalMenu.ItemClicked` | src/horizontalMenu.hpp:173-197 | out of range: false, latch unchanged; true iff pressed, latch clear and mouse over the item, which sets the latch; a release with a valid index clears it; a held press with the latch set gives false and keeps it set |
| `Vertical.Column` | src/verticalMenu.hpp:71-77 | the column a display pass lays out: one item per item, the first exactly one border right of and below the anchor |
| `Vertical.ColumnHover` | src/verticalMenu.hpp:79-85 | the highlight behind an item: as wide as the narrower of the panel's inner width and the text plus a border, and one border taller than the text |
| `Vertical.ColumnInsidePanel` | src/verticalMenu.hpp:62-77 | in a well-formed column, each item starts at least one border below the anchor, ends at least one border above the panel's bottom, and sits one border right of the anchor |
| `Vertical.ColumnInOrder` | src/verticalMenu.hpp:71-77 | items are stacked top to bottom with at least one border between neighbours |
| `Vertical.ColumnForgetsHide` | src/verticalMenu.hpp:101-106 | display's layout is the same after a hide, and laying out twice changes nothing |
| `Vertical.ColumnHoverFramesItem` | src/verticalMenu.hpp:79-85 | the highlight starts at the item's x; its top is the item's top + border/2 − 12.5, and its bottom is the item's bottom + 3·border/2 − 12.5 |
| `Vertical.VerticalMenu.constructor` | src/verticalMenu.hpp:33-44 | no items; panel of the style's size at the origin; selected index −1 |
| `Vertical.VerticalMenu.AsWritten` | src/verticalMenu.hpp:33-44 | the constructor as written, with the never-initialised selected index holding an arbitrary value |
| `Vertical.VerticalMenu.AddItem` | src/verticalMenu.hpp:48-56 | appends exactly one item with the measured bounds at the default position; earlier items are unchanged |
| `Vertical.VerticalMenu.ColumnHeight` | src/verticalMenu.hpp:62-65 | the first loop's total is two borders plus each item's height and a border |
| `Vertical.VerticalMenu.Display` | src/verticalMenu.hpp:60-95 | item i at (anchor.x + border, anchor.y + border + Σ_{j<i}(h_j + border)); highlight computed from the post-advance cursor matches the item's y + border/2 − 12.5; the panel is drawn at the anchor with its previous size, and afterwards resized to (width, 2·border + Σ(hᵢ + border)) |
| `Vertical.VerticalMenu.PlaceItems` | src/verticalMenu.hpp:71-92 | the loop leaves every item at its column position, the highlight of the selected item (or the previous one), and draws, per item in order, the highlight when selected and then the text |
| `Vertical.VerticalMenu.PlaceItem` | src/verticalMenu.hpp:75-90 | one pass moves only item i to the cursor and returns the cursor advanced by its height and a border; when i is selected the highlight, computed from the advanced cursor, equals that item's column highlight |
| `Vertical.VerticalMenu.Hide` | src/verticalMenu.hpp:99-107 | every item moves to (−10000, −10000) and is drawn there; the panel is untouched |
| `Vertical.VerticalMenu.HandleInput` | src/verticalMenu.hpp:111-125 | the selected index becomes the first item under the mouse, or −1; it ends in [−1, n) |
| `Vertical.VerticalMenu.ItemsClicked` | src/verticalMenu.hpp:129-140 | true iff some item's global bounds contain the mouse; no state changes |
| `Vertical.VerticalMenu.ItemClicked` | src/verticalMenu.hpp:144-168 | the same edge-detector contract as the horizontal widget, on the vertical menus' own latch |
| `Scenarios.SharedLatchAcrossMenus` | src/horizontalMenu.hpp:175 | a press that fires on one horizontal menu is suppressed on another sharing the latch; a vertical menu's separate latch still fires |
| `Scenarios.HoldReleasePress` | src/horizontalMenu.hpp:177-196 | press, hold, out-of-range release, hold, release, press gives true, false, false, false, false, true |
| `Scenarios.ThreeItemRow` | src/horizontalMenu.hpp:66-81 | three items with border 5: panel width 10 + Σ(wᵢ + 5); items start at anchor.x + 5 and advance by wᵢ + 5 |
| `Scenarios.EmptyColumnFirstFrame` | src/verticalMenu.hpp:62-94 | an empty vertical menu's first frame draws only the panel, at the constructor's size; the panel becomes (width, 2·border) afterwards |
| `Scenarios.WordsLaidOut` | src/horizontalMenu.hpp:76-96 | three 30-wide words in a row at the origin with border 5 sit at x = 5, 40, 75, all at y = 5 |
| `Scenarios.WordRowHits` | src/horizontalMenu.hpp:146-153 | on that row the mouse at (45, 10) hovers word 1 only, and at (300, 300) hovers none |
| `Scenarios.HoverThenLeave` | src/horizontalMenu.hpp:146-153 | the mouse over item 1 of 3 hovers 1; moved off every item, it hovers −1 |
| `Scenarios.UninitialisedRowHighlights` | src/horizontalMenu.hpp:32 | as written, with the indeterminate index holding 0, the first frame draws a highlight although no hover update ran |
| `Scenarios.InitialisedRowPlain` | src/horizontalMenu.hpp:83 | with the index initialised to −1, the first frame draws only the panel and the text |
| `Scenarios.UninitialisedColumnHighlights` | src/verticalMenu.hpp:28 | as written, with the indeterminate index holding 0, the first vertical frame draws a highlight |
| `Scenarios.InitialisedColumnPlain` | src/verticalMenu.hpp:79 | with the index initialised to −1, the first vertical frame draws only the panel and the text |

## Left out

- Rendering: colours, the font, the character size (16) and how text
  looks. Only the order and geometry of draw calls is recorded.
- Font loading from `arial.ttf`: file I/O, and the result is ignored.
- Mouse polling and `mapPixelToCoords`: the mouse position in logical
  coordinates and the button state are parameters.
- Text measurement (`getLocalBounds`): each item's local bounds are data
  fixed when it is added.
- `FloatRect::contains` is not modelled from SFML's code. `Contains` states
  the assumed half-open test (left and top edges inside, right and bottom
  edges outside) as an explicit assumption.
- Floating-point rounding: coordinates are `real`.
- The template parameter `T` and the label text: they only feed `setString`.
- The unused `oldIndex` in `handleHover` and `handleInput`.
- The unused `m_text` member prepared by both constructors.

## Findings

| source | as written | input that shows it | evidently intended | confidence | as-written member | corrected member |
|---|---|---|---|---|---|---|
| src/horizontalMenu.hpp:37-48 | the constructor never initialises `m_selectedIndex`, yet `staticDisplay` compares each index with it | a menu whose indeterminate index holds 0, one item, `staticDisplay` before any `handleHover`: a highlight is drawn | the index starts at −1, so nothing is highlighted until a hover update | not executed | `Horizontal.HorizontalMenu.AsWritten` (shown by `Scenarios.UninitialisedRowHighlights`) | `Horizontal.HorizontalMenu.constructor` (shown by `Scenarios.InitialisedRowPlain`) |
| src/verticalMenu.hpp:33-44 | the constructor never initialises `m_selectedIndex`, yet `display` compares each index with it | a menu whose indeterminate index holds 0, one item, `display` before any `handleInput`: a highlight is drawn | the index starts at −1, so nothing is highlighted until a hover update | not executed | `Vertical.VerticalMenu.AsWritten` (shown by `Scenarios.UninitialisedColumnHighlights`) | `Vertical.VerticalMenu.constructor` (shown by `Scenarios.InitialisedColumnPlain`) |
