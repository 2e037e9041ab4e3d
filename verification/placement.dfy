/** Where the popup container is placed next to the field's element: the placement class,
    the side-specific anchor point, the clamp into the viewport and the scroll offset. */
module Placement {
  import opened Wrappers

  /** A bounding client rectangle. */
  datatype Rect = Rect(top: real, left: real, width: real, height: real)
  {
    function Bottom(): real { top + height }
    function Right(): real { left + width }
  }

  /** The window the container is positioned in. `pageX`/`pageY` are `pageXOffset` and
      `pageYOffset`; `docX`/`docY` the document element's scroll offsets. */
  datatype Viewport = Viewport(width: real, height: real, pageX: real, pageY: real, docX: real, docY: real)

  /** `options.placement || 'top'` for a string option. */
  function EffectivePlacement(p: string): (r: string)
    ensures r != ""
    ensures p != "" ==> r == p
  {
    if p == "" then "top" else p
  }

  /** The Bootstrap class that points the arrow; unknown placements get the top class. */
  function PlacementClass(p: string): (r: string)
    ensures r == "bs-popover-top" || r == "bs-popover-bottom" || r == "bs-popover-start" || r == "bs-popover-end"
    ensures r == "bs-popover-top" <==> p != "bottom" && p != "left" && p != "right"
  {
    if p == "bottom" then "bs-popover-bottom"
    else if p == "left" then "bs-popover-start"
    else if p == "right" then "bs-popover-end"
    else "bs-popover-top"
  }

  /** A (top, left) position in viewport coordinates. */
  datatype Point = Point(top: real, left: real)

  /** The position before clamping. Top and bottom centre the container horizontally on
      the element, left and right centre it vertically; an unknown placement leaves both
      coordinates undefined. */
  function RawPosition(p: string, el: Rect, box: Rect): (r: Option<Point>)
    ensures r.Some? <==> p == "top" || p == "bottom" || p == "left" || p == "right"
    ensures (p == "top" || p == "bottom") && r.Some? ==>
      r.value.left + box.width / 2.0 == el.left + el.width / 2.0
    ensures (p == "left" || p == "right") && r.Some? ==>
      r.value.top + box.height / 2.0 == el.top + el.height / 2.0
    ensures p == "top" && r.Some? ==> r.value.top + box.height == el.top
    ensures p == "bottom" && r.Some? ==> r.value.top == el.Bottom()
    ensures p == "left" && r.Some? ==> r.value.left + box.width == el.left
    ensures p == "right" && r.Some? ==> r.value.left == el.Right()
  {
    var centreLeft := el.left + el.width / 2.0 - box.width / 2.0;
    var centreTop := el.top + el.height / 2.0 - box.height / 2.0;
    if p == "top" then Some(Point(el.top - box.height, centreLeft))
    else if p == "bottom" then Some(Point(el.Bottom(), centreLeft))
    else if p == "left" then Some(Point(centreTop, el.left - box.width))
    else if p == "right" then Some(Point(centreTop, el.Right()))
    else None
  }

  /** The boundary check on one axis: pulled back to 0 when it starts before the viewport,
      otherwise pulled in so that it ends at the viewport's edge when it overflows. */
  function Clamp(pos: real, size: real, extent: real): (r: real)
    ensures pos < 0.0 ==> r == 0.0
    ensures pos >= 0.0 && pos + size > extent ==> r + size == extent
    ensures pos >= 0.0 && pos + size <= extent ==> r == pos
  {
    if pos < 0.0 then 0.0 else if pos + size > extent then extent - size else pos
  }

  /** `window.pageYOffset || document.documentElement.scrollTop`: a zero page offset falls
      through to the document's. */
  function ScrollOffset(page: real, doc: real): (r: real)
    ensures page != 0.0 ==> r == page
    ensures page == 0.0 ==> r == doc
  {
    if page != 0.0 then page else doc
  }

  /** The result of `setPosition`: the placement class and the final page coordinates
      (`None` where the style would be `NaNpx`). */
  datatype Placed = Placed(cls: string, at: Option<Point>)

  function SetPosition(placement: string, el: Rect, box: Rect, vp: Viewport): (r: Placed)
    ensures r.cls == PlacementClass(EffectivePlacement(placement))
    ensures r.at.Some? <==> RawPosition(EffectivePlacement(placement), el, box).Some?
  {
    var p := EffectivePlacement(placement);
    match RawPosition(p, el, box)
    case None => Placed(PlacementClass(p), None)
    case Some(raw) =>
      var top := Clamp(raw.top, box.height, vp.height) + ScrollOffset(vp.pageY, vp.docY);
      var left := Clamp(raw.left, box.width, vp.width) + ScrollOffset(vp.pageX, vp.docX);
      Placed(PlacementClass(p), Some(Point(top, left)))
  }

  // ---- properties ----

  /** A container no larger than the viewport always ends up wholly inside it. */
  lemma ClampFits(pos: real, size: real, extent: real)
    requires 0.0 <= size <= extent
    ensures 0.0 <= Clamp(pos, size, extent) && Clamp(pos, size, extent) + size <= extent
  {
  }

  /** A position already inside the viewport is left alone, and clamping twice is clamping
      once. */
  lemma ClampStable(pos: real, size: real, extent: real)
    requires 0.0 <= size <= extent
    ensures 0.0 <= pos && pos + size <= extent ==> Clamp(pos, size, extent) == pos
    ensures Clamp(Clamp(pos, size, extent), size, extent) == Clamp(pos, size, extent)
  {
  }

  /** With a container that fits, the placed box lies inside the visible part of the page:
      between the scroll offset and the scroll offset plus the viewport. */
  lemma {:induction false} PlacedInsideViewport(placement: string, el: Rect, box: Rect, vp: Viewport)
    requires 0.0 <= box.width <= vp.width && 0.0 <= box.height <= vp.height
    requires RawPosition(EffectivePlacement(placement), el, box).Some?
    ensures var at := SetPosition(placement, el, box, vp).at.value;
      var sy, sx := ScrollOffset(vp.pageY, vp.docY), ScrollOffset(vp.pageX, vp.docX);
      && sy <= at.top && at.top + box.height <= sy + vp.height
      && sx <= at.left && at.left + box.width <= sx + vp.width
  {
    var raw := RawPosition(EffectivePlacement(placement), el, box).value;
    ClampFits(raw.top, box.height, vp.height);
    ClampFits(raw.left, box.width, vp.width);
  }

  /** An empty placement is the top placement. */
  lemma EmptyIsTop(el: Rect, box: Rect, vp: Viewport)
    ensures SetPosition("", el, box, vp) == SetPosition("top", el, box, vp)
  {
  }

  /** When the element sits well inside an unscrolled viewport, the top placement puts the
      container straight above it, centred. */
  lemma {:induction false} TopAboveElement(el: Rect, box: Rect, vp: Viewport)
    requires vp.pageX == 0.0 && vp.pageY == 0.0 && vp.docX == 0.0 && vp.docY == 0.0
    requires el.top - box.height >= 0.0 && el.top <= vp.height
    requires el.left + el.width / 2.0 - box.width / 2.0 >= 0.0
    requires el.left + el.width / 2.0 + box.width / 2.0 <= vp.width
    ensures var at := SetPosition("top", el, box, vp).at.value;
      at.top + box.height == el.top && at.left + box.width / 2.0 == el.left + el.width / 2.0
  {
    var raw := RawPosition("top", el, box).value;
    assert Clamp(raw.top, box.height, vp.height) == raw.top;
    assert Clamp(raw.left, box.width, vp.width) == raw.left;
  }
}
