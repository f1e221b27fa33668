/** The lightbox state machine (script.js lines 72-92): one current index, the
    overlay's visibility, the page scroll lock, and what the overlay shows. */
module Lightbox {
  import opened Options
  import opened Catalog
  import opened Arith

  /** What open() last wrote into the overlay: the image source and alt text,
      the caption title, and the 1-based position counter. */
  datatype Shown = Shown(src: string, alt: string, title: string, position: int)

  datatype State = State(current: int, visible: bool, scrollLocked: bool, shown: Option<Shown>)

  /** The state at page load: index 0, overlay hidden, nothing shown yet. */
  const Initial: State := State(0, false, false, None)

  /** The overlay contents for the item at index c. */
  function Render(items: seq<Item>, c: nat): Shown
    requires c < |items|
  {
    Shown(items[c].src, items[c].alt, items[c].alt, c + 1)
  }

  /** open(i). An empty catalog leaves everything as it is. Otherwise the index
      wraps cyclically and the item there is shown, the overlay made visible and
      the page scroll locked. */
  function Open(items: seq<Item>, s: State, i: int): (t: State)
    ensures |items| == 0 ==> t == s
    ensures |items| > 0 && i + |items| >= 0 ==>
              && 0 <= t.current < |items|
              && t.current == i % |items|
              && t.visible && t.scrollLocked
              && t.shown == Some(Shown(items[t.current].src, items[t.current].alt,
                                       items[t.current].alt, t.current + 1))
  {
    if |items| == 0 then s
    else
      var c := JsRem(i + |items|, |items|);
      ModAddDivisor(i, |items|);
      if 0 <= c then State(c, true, true, Some(Render(items, c)))
      // items[c] is undefined, so the destructuring throws after current was set
      else s.(current := c)
  }

  /** close(): the overlay is hidden and the scroll unlocked; the index and what
      the overlay shows are kept. */
  function Close(s: State): (t: State)
    ensures !t.visible && !t.scrollLocked
    ensures t.current == s.current && t.shown == s.shown
  {
    s.(visible := false, scrollLocked := false)
  }

  /** The states the page can be in: the index is a valid one (0 while the
      catalog is empty), the scroll is locked exactly while the overlay is
      visible, and whatever the overlay shows is the current item, which it
      does whenever it is visible. */
  ghost predicate Valid(items: seq<Item>, s: State)
  {
    && (|items| > 0 ==> 0 <= s.current < |items|)
    && (|items| == 0 ==> s.current == 0 && s.shown == None && !s.visible)
    && s.scrollLocked == s.visible
    && (s.visible ==> s.shown.Some?)
    && (s.shown.Some? ==> 0 <= s.current < |items| && s.shown == Some(Render(items, s.current)))
  }

  lemma InitialIsValid(items: seq<Item>)
    ensures Valid(items, Initial)
  {
  }

  /** next(): open(current + 1), so from the last item it wraps to the first;
      from a hidden overlay it reopens. */
  function Next(items: seq<Item>, s: State): (t: State)
    ensures Valid(items, s) ==> Valid(items, t)
    ensures Valid(items, s) && |items| > 0 ==>
              && t.visible
              && t.current == (s.current + 1) % |items|
              && (s.current == |items| - 1 ==> t.current == 0)
              && (s.current < |items| - 1 ==> t.current == s.current + 1)
    ensures |items| == 0 ==> t == s
  {
    StepWraps(s.current, |items|);
    Open(items, s, s.current + 1)
  }

  /** prev(): open(current - 1), so from the first item it wraps to the last;
      from a hidden overlay it reopens. */
  function Prev(items: seq<Item>, s: State): (t: State)
    ensures Valid(items, s) ==> Valid(items, t)
    ensures Valid(items, s) && |items| > 0 ==>
              && t.visible
              && t.current == (s.current - 1) % |items|
              && (s.current == 0 ==> t.current == |items| - 1)
              && (s.current > 0 ==> t.current == s.current - 1)
    ensures |items| == 0 ==> t == s
  {
    StepWraps(s.current, |items|);
    Open(items, s, s.current - 1)
  }

  /** open(i) keeps a valid state valid for every index the page can pass it:
      card indices and current ± 1 are never below -n. */
  lemma OpenKeepsValid(items: seq<Item>, s: State, i: int)
    requires Valid(items, s)
    requires i >= -|items|
    ensures Valid(items, Open(items, s, i))
  {
  }

  /** Opening the same index twice is the same as opening it once. */
  lemma OpenTwiceIsOpenOnce(items: seq<Item>, s: State, i: int)
    requires 0 <= i < |items|
    ensures Open(items, Open(items, s, i), i) == Open(items, s, i)
  {
  }

  /** Below -n the truncated remainder is negative unless n divides i: the
      index is set out of range and nothing else happens, because rendering
      the missing item throws. */
  lemma OpenFarBelowRange(items: seq<Item>, s: State)
    requires |items| >= 2
    ensures var t := Open(items, s, -|items| - 1);
      t.current == -1 && t.visible == s.visible && t.shown == s.shown
  {
  }

  /** The three-item walk: open(2) shows C, next wraps to A, prev goes back to
      C, and close hides the overlay while keeping C current. */
  lemma ThreeItemWalk(a: Item, b: Item, c: Item)
    ensures var items := [a, b, c];
      var s1 := Open(items, Initial, 2);
      var s2 := Next(items, s1);
      var s3 := Prev(items, s2);
      var s4 := Close(s3);
      && s1.current == 2 && s1.visible && s1.shown == Some(Shown(c.src, c.alt, c.alt, 3))
      && s2.current == 0 && s2.visible && s2.shown == Some(Shown(a.src, a.alt, a.alt, 1))
      && s3.current == 2 && s3.visible
      && s4.current == 2 && !s4.visible && !s4.scrollLocked
  {
  }
}
