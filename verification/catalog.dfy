/** The catalog: the ordered, fixed list of viewable items built once from the
    gallery's cards (script.js lines 50-57). */
module Catalog {
  import opened Options
  import opened Seqs

  /** The attributes of one gallery image that the viewer reads. Numeric
      attributes arrive already converted: `None` stands for an attribute that
      is absent, empty or not a number. */
  datatype ImgNode = ImgNode(
    src: string,
    alt: Option<string>,
    width: Option<int>,           // parseInt of the width attribute
    height: Option<int>,          // parseInt of the height attribute
    dataW: Option<int>,           // +data-w, when data-w is non-empty
    dataH: Option<int>,           // +data-h, when data-h is non-empty
    dataset: map<string, string>) // the textual data-* attributes by key

  /** A `.card` element of the gallery, with the first image inside it, if any. */
  datatype Card = Card(img: Option<ImgNode>)

  /** A viewable item; `el` is the image element it was built from. */
  datatype Item = Item(src: string, alt: string, el: ImgNode)

  /** The value of a data-* attribute; an absent attribute reads as empty. */
  function Data(el: ImgNode, key: string): string
  {
    if key in el.dataset then el.dataset[key] else ""
  }

  /** The item for one image: an absent or empty alt text becomes "". */
  function ItemOf(img: ImgNode): (it: Item)
    ensures it.el == img && it.src == img.src
    ensures img.alt == None ==> it.alt == ""
    ensures forall a :: img.alt == Some(a) ==> it.alt == a
  {
    Item(img.src, match img.alt case Some(a) => a case None => "", img)
  }

  function CardItem(c: Card): Option<Item>
  {
    match c.img
    case Some(img) => Some(ItemOf(img))
    case None => None
  }

  /** Placeholder cards (no image) are skipped; document order is kept. The
      catalog is never longer than the card list, and as long exactly when
      every card holds an image. */
  function Build(cards: seq<Card>): (items: seq<Item>)
    ensures |items| <= |cards|
    ensures |items| == |cards| <==> forall j :: 0 <= j < |cards| ==> cards[j].img.Some?
  {
    FilterMapLength(cards, CardItem);
    FilterMap(cards, CardItem)
  }

  /** The catalog lists exactly the cards that hold an image, in document order:
      with `ps` the ascending indices of those cards, item k is built from the
      image of card ps[k]. */
  lemma BuildKeepsImageCardsInOrder(cards: seq<Card>)
    ensures var items, ps := Build(cards), Kept(cards, CardItem);
      && |items| == |ps| <= |cards|
      && StrictlyIncreasing(ps)
      && (forall k :: 0 <= k < |ps| ==>
            ps[k] < |cards| && cards[ps[k]].img.Some?
            && var img := cards[ps[k]].img.value;
            && items[k].el == img && items[k].src == img.src
            && items[k].alt == (if img.alt.Some? then img.alt.value else ""))
      && (forall j :: 0 <= j < |cards| ==> (cards[j].img.Some? <==> j in ps))
  {
    var items, ps := Build(cards), Kept(cards, CardItem);
    KeptShape(cards, CardItem);
    KeptImages(cards, CardItem);
    KeptIsAccepted(cards, CardItem);
    CountBound(ps, |cards|);
    forall j | 0 <= j < |cards|
      ensures cards[j].img.Some? <==> j in ps
    {
      assert CardItem(cards[j]).Some? <==> cards[j].img.Some?;
    }
  }

  /** A strictly increasing list of indices below n has at most n entries. */
  lemma {:induction false} CountBound(ps: seq<nat>, n: nat)
    requires StrictlyIncreasing(ps)
    requires forall k :: 0 <= k < |ps| ==> ps[k] < n
    ensures |ps| <= n
  {
    if |ps| > 0 {
      var init := ps[..|ps| - 1];
      var last := ps[|ps| - 1];
      forall k | 0 <= k < |init| ensures init[k] < last { assert init[k] == ps[k]; }
      CountBound(init, last);
    }
  }
}
