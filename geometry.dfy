/** Plane geometry shared by both menus: points, SFML-style rectangles, the
    text items a menu owns, and the mouse hit-test over them.
    Coordinates are `real`; single-precision rounding is not modelled. */
module Geometry {

  datatype Vec2 = Vec2(x: real, y: real)

  /** An axis-aligned rectangle as `sf::FloatRect` holds it: its top-left
      corner and its extent. */
  datatype FloatRect = FloatRect(left: real, top: real, width: real, height: real)

  /** The geometry of an `sf::RectangleShape` (the background panel and the
      hover highlight): where it is and how large it is. */
  datatype RectShape = RectShape(position: Vec2, size: Vec2)

  /** One menu entry: the local bounds its text measured when it was added
      (fixed from then on) and the position the last layout gave it. */
  datatype TextItem = TextItem(local: FloatRect, position: Vec2)

  /** Where `hide` parks every item. */
  const OffScreen: Vec2 := Vec2(-10000.0, -10000.0)

  /** `std::min` and `std::max` on two values. */
  function Min(a: real, b: real): real { if b < a then b else a }
  function Max(a: real, b: real): real { if a < b then b else a }

  /** Assumed semantics of `FloatRect::contains`: a half-open test, the left
      and top edges inside, the right and bottom edges outside, for either
      sign of the extent. */
  predicate Contains(r: FloatRect, p: Vec2): (b: bool)
    ensures 0.0 <= r.width && 0.0 <= r.height ==>
      (b <==> r.left <= p.x < r.left + r.width && r.top <= p.y < r.top + r.height)
    ensures r.width == 0.0 || r.height == 0.0 ==> !b
  {
    var minX := Min(r.left, r.left + r.width);
    var maxX := Max(r.left, r.left + r.width);
    var minY := Min(r.top, r.top + r.height);
    var maxY := Max(r.top, r.top + r.height);
    minX <= p.x < maxX && minY <= p.y < maxY
  }

  /** Global bounds of an untransformed text: its local bounds moved by its
      position (no rotation, scale or origin is ever set). */
  function GlobalBounds(item: TextItem): (g: FloatRect)
    ensures g.width == item.local.width && g.height == item.local.height
    ensures g.left - item.local.left == item.position.x && g.top - item.local.top == item.position.y
  {
    FloatRect(item.position.x + item.local.left, item.position.y + item.local.top,
              item.local.width, item.local.height)
  }

  /** Item `i` exists and its global bounds contain the mouse `p`. */
  predicate Hit(items: seq<TextItem>, i: int, p: Vec2) {
    0 <= i < |items| && Contains(GlobalBounds(items[i]), p)
  }

  /** The first index at or after `k` whose item the mouse is over, or -1. */
  function FirstHitFrom(items: seq<TextItem>, p: Vec2, k: nat): (r: int)
    requires k <= |items|
    decreases |items| - k
    ensures r == -1 || k <= r < |items|
    ensures r == -1 <==> forall i :: k <= i < |items| ==> !Hit(items, i, p)
    ensures r != -1 ==> Hit(items, r, p) && forall i :: k <= i < r ==> !Hit(items, i, p)
  {
    if k == |items| then -1
    else if Hit(items, k, p) then k
    else FirstHitFrom(items, p, k + 1)
  }

  /** The hovered index: the smallest index whose item the mouse is over,
      or -1 when it is over none. */
  function FirstHit(items: seq<TextItem>, p: Vec2): (r: int)
    ensures -1 <= r < |items|
    ensures r == -1 <==> forall i :: 0 <= i < |items| ==> !Hit(items, i, p)
    ensures r != -1 ==> Hit(items, r, p) && forall i :: 0 <= i < r ==> !Hit(items, i, p)
  {
    FirstHitFrom(items, p, 0)
  }

  /** The items as `hide` leaves them: every one parked off screen. */
  function Hidden(items: seq<TextItem>): (r: seq<TextItem>)
    ensures |r| == |items|
    ensures forall i :: 0 <= i < |r| ==> r[i].position == OffScreen && r[i].local == items[i].local
  {
    seq(|items|, i requires 0 <= i < |items| => items[i].(position := OffScreen))
  }

  /** The characterisation of `FirstHit` determines it: any index that is
      -1 exactly when no item is hit, and otherwise the first hit, is it. */
  lemma FirstHitUnique(items: seq<TextItem>, p: Vec2, r: int)
    requires -1 <= r < |items|
    requires r == -1 <==> forall i :: 0 <= i < |items| ==> !Hit(items, i, p)
    requires r != -1 ==> Hit(items, r, p) && forall i :: 0 <= i < r ==> !Hit(items, i, p)
    ensures r == FirstHit(items, p)
  {
    var f := FirstHit(items, p);
    if r != -1 && f != -1 {
      assert !(r < f) && !(f < r);
    }
  }
}
