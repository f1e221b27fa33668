/** The whole viewer as one state machine: the lightbox, the details panel and
    the touch start coordinate, driven by the page's events (script.js lines
    72-161). */
module Viewer {
  import opened Options
  import opened Catalog
  import opened Details
  import opened Lightbox
  import opened Routing

  /** The viewer's state: the lightbox, whether the details panel is visible,
      the rows last written into it, and where the last touch started. */
  datatype Page = Page(box: State, detailsVisible: bool, rows: seq<Row>, startX: int)

  const Start: Page := Page(Initial, false, [], 0)

  /** The events the page listens to. Card events carry the card's index in
      the catalog. */
  datatype Event =
    | CardClick(card: int)
    | ImageClick(card: int)
    | CardKey(card: int, key: string)
    | BoxClick(target: BoxTarget)
    | PanelClick(spot: PanelTarget)
    | Key(key: string)
    | TouchStart(x: int)
    | TouchEnd(x: int)

  /** A handler's result: the new state, and the address handed to a new
      browsing context, if one was opened. */
  datatype Outcome = Outcome(page: Page, popup: Option<string>)

  /** The events page `p` can deliver: card listeners exist only for the
      catalog's cards, the overlay's click and touch listeners hear nothing
      while it is hidden, and the panel's click listener nothing while the
      panel is hidden. Key events reach the window in every state. */
  predicate Receivable(items: seq<Item>, p: Page, e: Event)
  {
    && ((e.CardClick? || e.ImageClick? || e.CardKey?) ==> 0 <= e.card < |items|)
    && ((e.BoxClick? || e.TouchStart? || e.TouchEnd?) ==> p.box.visible)
    && (e.PanelClick? ==> p.detailsVisible)
  }

  /** The address "open original" hands to the new context: the item's
      data-original when non-empty, its display source otherwise. */
  function OriginalUrl(it: Item): (url: string)
    ensures Data(it.el, "original") != "" ==> url == Data(it.el, "original")
    ensures Data(it.el, "original") == "" ==> url == it.src
  {
    if Data(it.el, "original") != "" then Data(it.el, "original") else it.src
  }

  /** Carries out one routed action. With no item at the current index, the
      details and open-original handlers throw on the missing item and change
      nothing. */
  function Perform(items: seq<Item>, p: Page, a: Action): Outcome
  {
    match a
    case NoAction => Outcome(p, None)
    case GoNext => Outcome(p.(box := Next(items, p.box)), None)
    case GoPrev => Outcome(p.(box := Prev(items, p.box)), None)
    case CloseBox => Outcome(p.(box := Close(p.box)), None)
    case HideDetails => Outcome(p.(detailsVisible := false), None)
    case ShowDetails =>
      if 0 <= p.box.current < |items| then
        Outcome(p.(rows := Rows(items[p.box.current].el), detailsVisible := true), None)
      else Outcome(p, None)
    case OpenOriginal =>
      if 0 <= p.box.current < |items| then Outcome(p, Some(OriginalUrl(items[p.box.current])))
      else Outcome(p, None)
    case OpenAt(i) => Outcome(p.(box := Open(items, p.box, i)), None)
  }

  /** Handles one event. A click on a card's image runs the image's listener and
      then, bubbling, the card's; a key pressed on a card runs the card's
      listener and then, bubbling, the window's. */
  function Step(items: seq<Item>, p: Page, e: Event): Outcome
    requires Receivable(items, p, e)
  {
    match e
    case CardClick(i) => Perform(items, p, OpenAt(i))
    case ImageClick(i) =>
      var once := Perform(items, p, OpenAt(i)).page;
      Perform(items, once, OpenAt(i))
    case CardKey(i, key) =>
      var q := if ActivatesCard(key) then Perform(items, p, OpenAt(i)).page else p;
      Perform(items, q, RouteKey(q.box.visible, q.detailsVisible, key))
    case BoxClick(target) => Perform(items, p, RouteBoxClick(target))
    case PanelClick(target) => Perform(items, p, RoutePanelClick(target))
    case Key(key) => Perform(items, p, RouteKey(p.box.visible, p.detailsVisible, key))
    case TouchStart(x) => Outcome(p.(startX := x), None)
    case TouchEnd(x) => Perform(items, p, RouteSwipe(x - p.startX))
  }

  /** What each action may change: only open-original hands out an address,
      only the details button rewrites the table, only the two details actions
      toggle the panel, the lightbox moves only for navigation and close, and
      no action touches the recorded touch start. */
  lemma PerformFrames(items: seq<Item>, p: Page, a: Action)
    ensures var o := Perform(items, p, a);
      && (o.popup.Some? ==> a == OpenOriginal)
      && (o.page.rows != p.rows ==> a == ShowDetails)
      && (o.page.detailsVisible != p.detailsVisible ==> a == ShowDetails || a == HideDetails)
      && (o.page.box != p.box ==> a == GoNext || a == GoPrev || a == CloseBox || a.OpenAt?)
      && o.page.startX == p.startX
  {
  }

  /** What each event may change: only the open-original control opens a new
      context, only the details control rewrites the table, and a touch start
      only records where the touch began. */
  lemma StepFrames(items: seq<Item>, p: Page, e: Event)
    requires Receivable(items, p, e)
    ensures var o := Step(items, p, e);
      && (o.popup.Some? ==> e == BoxClick(Control("open-original")))
      && (o.page.rows != p.rows ==> e == BoxClick(Control("details")))
      && (o.page.startX != p.startX ==> e.TouchStart?)
      && (e.TouchStart? ==> o == Outcome(p.(startX := e.x), None))
  {
    match e
    case ImageClick(i) =>
      PerformFrames(items, p, OpenAt(i));
      PerformFrames(items, Perform(items, p, OpenAt(i)).page, OpenAt(i));
    case CardKey(i, key) =>
      var q := if ActivatesCard(key) then Perform(items, p, OpenAt(i)).page else p;
      PerformFrames(items, p, OpenAt(i));
      PerformFrames(items, q, RouteKey(q.box.visible, q.detailsVisible, key));
    case CardClick(i) => PerformFrames(items, p, OpenAt(i));
    case BoxClick(target) => PerformFrames(items, p, RouteBoxClick(target));
    case PanelClick(target) => PerformFrames(items, p, RoutePanelClick(target));
    case Key(key) => PerformFrames(items, p, RouteKey(p.box.visible, p.detailsVisible, key));
    case TouchStart(x) =>
    case TouchEnd(x) => PerformFrames(items, p, RouteSwipe(x - p.startX));
  }

  /** The reachable pages: a valid lightbox, and a details table that, once
      written, is the table of some catalog item. */
  ghost predicate PageValid(items: seq<Item>, p: Page)
  {
    && Valid(items, p.box)
    && (p.detailsVisible ==> exists k :: 0 <= k < |items| && p.rows == Rows(items[k].el))
  }

  lemma StartIsValid(items: seq<Item>)
    ensures PageValid(items, Start)
  {
  }

  /** Every routed action keeps the page valid, as long as any index it opens
      is not below -n. */
  lemma PerformKeepsValid(items: seq<Item>, p: Page, a: Action)
    requires PageValid(items, p)
    requires a.OpenAt? ==> a.index >= -|items|
    ensures PageValid(items, Perform(items, p, a).page)
  {
    var q := Perform(items, p, a).page;
    PerformKeepsLightboxValid(items, p, a);
    PerformWritesCurrentRows(items, p, a);
    if q.detailsVisible && p.detailsVisible && q.rows == p.rows {
      var k :| 0 <= k < |items| && p.rows == Rows(items[k].el);
      assert q.rows == Rows(items[k].el);
    }
  }

  /** Every event the page can receive keeps the page valid: in particular the
      index stays in range and, with an empty catalog, the overlay never shows. */
  lemma StepKeepsValid(items: seq<Item>, p: Page, e: Event)
    requires PageValid(items, p)
    requires Receivable(items, p, e)
    ensures PageValid(items, Step(items, p, e).page)
  {
    var q := Step(items, p, e).page;
    StepKeepsLightboxValid(items, p, e);
    StepWritesCurrentRows(items, p, e);
    if q.detailsVisible && p.detailsVisible && q.rows == p.rows {
      var k :| 0 <= k < |items| && p.rows == Rows(items[k].el);
      assert q.rows == Rows(items[k].el);
    }
  }

  /** Each action keeps the lightbox valid, as long as any index it opens is
      not below -n. */
  lemma PerformKeepsLightboxValid(items: seq<Item>, p: Page, a: Action)
    requires Valid(items, p.box)
    requires a.OpenAt? ==> a.index >= -|items|
    ensures Valid(items, Perform(items, p, a).page.box)
  {
    if a.OpenAt? {
      OpenKeepsValid(items, p.box, a.index);
    }
  }

  /** Each event keeps the lightbox valid. */
  lemma StepKeepsLightboxValid(items: seq<Item>, p: Page, e: Event)
    requires Valid(items, p.box)
    requires Receivable(items, p, e)
    ensures Valid(items, Step(items, p, e).page.box)
  {
    match e
    case ImageClick(i) =>
      PerformKeepsLightboxValid(items, p, OpenAt(i));
      PerformKeepsLightboxValid(items, Perform(items, p, OpenAt(i)).page, OpenAt(i));
    case CardKey(i, key) =>
      var q := if ActivatesCard(key) then Perform(items, p, OpenAt(i)).page else p;
      PerformKeepsLightboxValid(items, p, OpenAt(i));
      PerformKeepsLightboxValid(items, q, RouteKey(q.box.visible, q.detailsVisible, key));
    case CardClick(i) => PerformKeepsLightboxValid(items, p, OpenAt(i));
    case BoxClick(target) => PerformKeepsLightboxValid(items, p, RouteBoxClick(target));
    case PanelClick(target) => PerformKeepsLightboxValid(items, p, RoutePanelClick(target));
    case Key(key) => PerformKeepsLightboxValid(items, p, RouteKey(p.box.visible, p.detailsVisible, key));
    case TouchStart(x) =>
    case TouchEnd(x) => PerformKeepsLightboxValid(items, p, RouteSwipe(x - p.startX));
  }

  /** A visible details panel shows either the rows it already showed, or
      the table of the current item, freshly written by the details action. */
  lemma PerformWritesCurrentRows(items: seq<Item>, p: Page, a: Action)
    ensures var q := Perform(items, p, a).page;
      q.detailsVisible ==>
        || (p.detailsVisible && q.rows == p.rows)
        || (a == ShowDetails && 0 <= p.box.current < |items|
            && q.rows == Rows(items[p.box.current].el))
  {
  }

  /** After any event a visible details panel shows either the rows it already
      showed, or the table of the item current before the event. */
  lemma StepWritesCurrentRows(items: seq<Item>, p: Page, e: Event)
    requires Receivable(items, p, e)
    ensures var q := Step(items, p, e).page;
      q.detailsVisible ==>
        || (p.detailsVisible && q.rows == p.rows)
        || (0 <= p.box.current < |items| && q.rows == Rows(items[p.box.current].el))
  {
    match e
    case ImageClick(i) =>
      PerformWritesCurrentRows(items, p, OpenAt(i));
      PerformWritesCurrentRows(items, Perform(items, p, OpenAt(i)).page, OpenAt(i));
    case CardKey(i, key) =>
      var q := if ActivatesCard(key) then Perform(items, p, OpenAt(i)).page else p;
      PerformWritesCurrentRows(items, p, OpenAt(i));
      PerformWritesCurrentRows(items, q, RouteKey(q.box.visible, q.detailsVisible, key));
    case CardClick(i) => PerformWritesCurrentRows(items, p, OpenAt(i));
    case BoxClick(target) => PerformWritesCurrentRows(items, p, RouteBoxClick(target));
    case PanelClick(target) => PerformWritesCurrentRows(items, p, RoutePanelClick(target));
    case Key(key) => PerformWritesCurrentRows(items, p, RouteKey(p.box.visible, p.detailsVisible, key));
    case TouchStart(x) =>
    case TouchEnd(x) => PerformWritesCurrentRows(items, p, RouteSwipe(x - p.startX));
  }

  /** With both the overlay and the details panel hidden, every key is ignored. */
  lemma HiddenPageIgnoresKeys(items: seq<Item>, p: Page, key: string)
    requires !p.box.visible && !p.detailsVisible
    ensures Step(items, p, Key(key)) == Outcome(p, None)
  {
  }

  /** Escape closes the details panel first and leaves the lightbox as it is;
      only with the panel hidden does it close the lightbox. */
  lemma EscapePrefersDetails(items: seq<Item>, p: Page)
    ensures p.detailsVisible ==>
              Step(items, p, Key("Escape")).page == p.(detailsVisible := false)
    ensures !p.detailsVisible && p.box.visible ==>
              Step(items, p, Key("Escape")).page == p.(box := Close(p.box))
  {
  }

  /** A click on a card's image opens the item once in effect, although both
      the image's and the card's listeners run. */
  lemma ImageClickOpensOnce(items: seq<Item>, p: Page, i: int)
    requires 0 <= i < |items|
    ensures Step(items, p, ImageClick(i)) == Step(items, p, CardClick(i))
    ensures Step(items, p, ImageClick(i)).page.box.current == i
  {
    OpenTwiceIsOpenOnce(items, p.box, i);
  }

  /** Enter or Space on card i opens item i; the window handler then sees a key
      it ignores. */
  lemma CardKeyOpens(items: seq<Item>, p: Page, i: int, key: string)
    requires 0 <= i < |items|
    requires ActivatesCard(key)
    ensures Step(items, p, CardKey(i, key)) == Step(items, p, CardClick(i))
    ensures Step(items, p, CardKey(i, key)).page.box.visible
  {
  }

  /** Any other key pressed on a card only reaches the window's handler, as
      if it had been pressed anywhere else. */
  lemma CardKeyOtherwiseBubbles(items: seq<Item>, p: Page, i: int, key: string)
    requires 0 <= i < |items|
    requires !ActivatesCard(key)
    ensures Step(items, p, CardKey(i, key)) == Step(items, p, Key(key))
  {
  }

  /** While the overlay is hidden the arrow keys do nothing, even with the
      details panel showing. */
  lemma HiddenOverlayIgnoresArrows(items: seq<Item>, p: Page)
    requires !p.box.visible
    ensures Step(items, p, Key("ArrowRight")) == Outcome(p, None)
    ensures Step(items, p, Key("ArrowLeft")) == Outcome(p, None)
  {
  }

  /** A touch that travels exactly the threshold does nothing; one unit further
      navigates, leftwards to the next item and rightwards to the previous. */
  lemma SwipeNavigation(items: seq<Item>, p: Page)
    requires Valid(items, p.box) && p.box.visible
    ensures Step(items, p, TouchEnd(p.startX - 40)).page == p
    ensures Step(items, p, TouchEnd(p.startX + 40)).page == p
    ensures Step(items, p, TouchEnd(p.startX - 41)).page.box.current == (p.box.current + 1) % |items|
    ensures Step(items, p, TouchEnd(p.startX + 41)).page.box.current == (p.box.current - 1) % |items|
  {
  }

  /** Navigating does not rewrite an open details table: it keeps the rows of
      the item it was opened on. */
  lemma NavigationKeepsDetailsRows(items: seq<Item>, p: Page)
    requires p.detailsVisible && p.box.visible
    ensures var q := Step(items, p, Key("ArrowRight")).page;
      q.detailsVisible && q.rows == p.rows
  {
  }

  /** Open original hands the current item's original address, or its source
      when it has none, to the new context and changes nothing else. */
  lemma OpenOriginalUsesOriginalOrSource(items: seq<Item>, p: Page)
    requires Valid(items, p.box) && p.box.visible
    ensures var o := Step(items, p, BoxClick(Control("open-original")));
      var it := items[p.box.current];
      && o.page == p
      && o.popup == Some(if Data(it.el, "original") != "" then Data(it.el, "original") else it.src)
  {
  }

  /** The details button shows the current item's table. */
  lemma DetailsShowCurrentItem(items: seq<Item>, p: Page)
    requires Valid(items, p.box) && p.box.visible
    ensures var q := Step(items, p, BoxClick(Control("details"))).page;
      q.detailsVisible && q.rows == Rows(items[p.box.current].el) && q.box == p.box
  {
    assert RouteBoxClick(Control("details")) == ShowDetails;
    var rows := Rows(items[p.box.current].el);
    assert Perform(items, p, ShowDetails).page == p.(rows := rows, detailsVisible := true);
  }
}
