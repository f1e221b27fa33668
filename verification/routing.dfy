/** Input routing (script.js lines 94-139 and 159-161): which operation a key,
    a click or a swipe asks for. Each router is a pure decision; the page
    performs the action. */
module Routing {

  datatype Action =
    | NoAction
    | GoNext
    | GoPrev
    | CloseBox
    | HideDetails
    | ShowDetails
    | OpenOriginal
    | OpenAt(index: int)

  /** The horizontal distance a touch must travel to count as a swipe. */
  const SwipeThreshold: int := 40

  /** The window's key handler, given whether the overlay and the details panel
      are visible. */
  function RouteKey(boxVisible: bool, detailsVisible: bool, key: string): (a: Action)
    ensures !boxVisible && !detailsVisible ==> a == NoAction
    ensures a == HideDetails <==> detailsVisible && key == "Escape"
    ensures a == CloseBox <==> boxVisible && !detailsVisible && key == "Escape"
    ensures a == GoNext <==> boxVisible && key == "ArrowRight"
    ensures a == GoPrev <==> boxVisible && key == "ArrowLeft"
    ensures a in {NoAction, HideDetails, CloseBox, GoNext, GoPrev}
  {
    if !boxVisible && !detailsVisible then NoAction
    else if key == "Escape" then (if detailsVisible then HideDetails else CloseBox)
    else if boxVisible && key == "ArrowRight" then GoNext
    else if boxVisible && key == "ArrowLeft" then GoPrev
    else NoAction
  }

  /** A card's own key handler opens it on Enter or Space. */
  predicate ActivatesCard(key: string)
  {
    key == "Enter" || key == " "
  }

  /** Where a click inside the overlay lands: on (or within) a control carrying
      a data-action, on the overlay's backdrop itself, or anywhere else. */
  datatype BoxTarget = Control(action: string) | Backdrop | Elsewhere

  /** The overlay's click handler. */
  function RouteBoxClick(target: BoxTarget): (a: Action)
    ensures a == CloseBox <==> target == Backdrop || target == Control("close")
    ensures a == GoNext <==> target == Control("next")
    ensures a == GoPrev <==> target == Control("prev")
    ensures a == OpenOriginal <==> target == Control("open-original")
    ensures a == ShowDetails <==> target == Control("details")
    ensures a in {NoAction, CloseBox, GoNext, GoPrev, OpenOriginal, ShowDetails}
  {
    match target
    case Backdrop => CloseBox
    case Elsewhere => NoAction
    case Control(name) =>
      if name == "close" then CloseBox
      else if name == "next" then GoNext
      else if name == "prev" then GoPrev
      else if name == "open-original" then OpenOriginal
      else if name == "details" then ShowDetails
      else NoAction
  }

  /** Where a click inside the details panel lands: on its backdrop, on or
      within its close control, or anywhere else. */
  datatype PanelTarget = PanelBackdrop | PanelClose | PanelElsewhere

  /** The details panel's click handler. */
  function RoutePanelClick(target: PanelTarget): (a: Action)
    ensures a == HideDetails <==> target != PanelElsewhere
    ensures a in {NoAction, HideDetails}
  {
    match target
    case PanelBackdrop => HideDetails
    case PanelClose => HideDetails
    case PanelElsewhere => NoAction
  }

  /** The touchend handler, given the signed horizontal travel since touchstart:
      more than the threshold to the left is next, to the right is previous,
      anything shorter is a tap. */
  function RouteSwipe(dx: int): (a: Action)
    ensures a == GoNext <==> dx < -SwipeThreshold
    ensures a == GoPrev <==> dx > SwipeThreshold
    ensures a == NoAction <==> -SwipeThreshold <= dx <= SwipeThreshold
  {
    if (if dx < 0 then -dx else dx) > SwipeThreshold then (if dx < 0 then GoNext else GoPrev)
    else NoAction
  }

  /** The threshold itself is a tap; one unit past it is a swipe either way. */
  lemma SwipeBoundaries()
    ensures RouteSwipe(40) == NoAction && RouteSwipe(-40) == NoAction
    ensures RouteSwipe(-41) == GoNext && RouteSwipe(41) == GoPrev
  {
  }
}
