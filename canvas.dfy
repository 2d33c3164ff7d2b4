/** The render window, reduced to the order of what is drawn on it. */
module Canvas {
  import opened Geometry

  /** One `window.draw` call: the background panel, the hover highlight, or
      the text of item `index` at the position it was drawn. */
  datatype Drawable =
    | Panel(shape: RectShape)
    | Highlight(shape: RectShape)
    | Label(index: int, position: Vec2)

  /** A render target that records every draw call in order. */
  class Window {
    var drawn: seq<Drawable>

    constructor ()
      ensures drawn == []
    {
      drawn := [];
    }

    method Draw(d: Drawable)
      modifies this`drawn
      ensures drawn == old(drawn) + [d]
    {
      drawn := drawn + [d];
    }
  }

  /** What a display pass draws for item `i`: its text, preceded by the
      highlight `hover` when it is the selected one. */
  function ItemDraw(items: seq<TextItem>, selected: int, hover: RectShape, i: nat): seq<Drawable>
    requires i < |items|
  {
    (if i == selected then [Highlight(hover)] else []) + [Label(i, items[i].position)]
  }

  /** What a display pass draws for its first `k` items, in order. */
  function ItemDraws(items: seq<TextItem>, selected: int, hover: RectShape, k: nat): seq<Drawable>
    requires k <= |items|
  {
    if k == 0 then [] else ItemDraws(items, selected, hover, k - 1) + ItemDraw(items, selected, hover, k - 1)
  }

  /** A display pass draws every item's text in index order; the highlight
      appears at most once, exactly when the selected index is a valid one,
      and then immediately before the selected item's text, so the text
      stays on top of it. */
  lemma {:induction false} ItemDrawsOrder(items: seq<TextItem>, selected: int, hover: RectShape, k: nat)
    requires k <= |items|
    ensures var d := ItemDraws(items, selected, hover, k);
      && |d| == (if 0 <= selected < k then k + 1 else k)
      && (forall p :: 0 <= p < |d| && d[p].Highlight? ==> p == selected && d[p] == Highlight(hover))
      && (forall i :: 0 <= i < k ==>
            d[if 0 <= selected <= i then i + 1 else i] == Label(i, items[i].position))
      && (0 <= selected < k ==> d[selected] == Highlight(hover))
  {
    if k > 0 {
      ItemDrawsOrder(items, selected, hover, k - 1);
    }
  }
}
