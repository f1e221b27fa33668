/** Aspect reservation (script.js lines 23-48) and the portrait/landscape tag
    (lines 60-70): the width/height ratio a card reserves before and after its
    image loads. */
module Aspect {
  import opened Options
  import opened Catalog
  import opened Dimensions

  /** The ratio written into the card's aspect-ratio style, "w / h". */
  datatype Ratio = Ratio(w: int, h: int)

  /** The ratio reserved when nothing better is known. */
  const Fallback: Ratio := Ratio(3, 2)

  /** A converted number that JavaScript treats as true: present and non-zero. */
  predicate Truthy(n: Option<int>)
  {
    n.Some? && n.value != 0
  }

  /** The ratio reserved before the image has loaded, the dimensions string
      read with substitute class `subst`. Truthy width and height attributes
      win. Otherwise a pair parsed from the dimensions string is taken, even
      one holding a zero, and only without one are data-w/data-h consulted;
      whatever pair is taken is used only when both its parts are non-zero,
      and 3 / 2 is reserved otherwise. */
  function ReserveWith(subst: set<char>, img: ImgNode): (r: Ratio)
    ensures r.w != 0 && r.h != 0
    ensures Truthy(img.width) && Truthy(img.height) ==> r == Ratio(img.width.value, img.height.value)
    ensures !(Truthy(img.width) && Truthy(img.height)) ==>
              match ParseDimsWith(subst, Data(img, "dimensions"))
              case Some(d) => r == (if d.w != 0 && d.h != 0 then Ratio(d.w, d.h) else Fallback)
              case None =>
                r == (if Truthy(img.dataW) && Truthy(img.dataH)
                      then Ratio(img.dataW.value, img.dataH.value) else Fallback)
  {
    if Truthy(img.width) && Truthy(img.height) then Ratio(img.width.value, img.height.value)
    else
      var declared :=
        match ParseDimsWith(subst, Data(img, "dimensions"))
        case Some(d) => Some(Ratio(d.w, d.h))
        case None =>
          if img.dataW.Some? && img.dataH.Some? then Some(Ratio(img.dataW.value, img.dataH.value))
          else None;
      match declared
      case Some(d) => if d.w != 0 && d.h != 0 then d else Fallback
      case None => Fallback
  }

  /** The reservation as the script performs it, with the substitute class
      spelled as in the source file. */
  function Reserve(img: ImgNode): Ratio
  {
    ReserveWith(WrittenSubstitutes, img)
  }

  /** The reservation with the substitute class the authors meant. */
  function ReserveIntended(img: ImgNode): Ratio
  {
    ReserveWith(IntendedSubstitutes, img)
  }

  /** A card whose only size information is the dimensions string "1200x800"
      reserves 1200 / 800, under either substitute class. */
  lemma DimensionsStringReserves(subst: set<char>, img: ImgNode)
    requires subst == WrittenSubstitutes || subst == IntendedSubstitutes
    requires !(Truthy(img.width) && Truthy(img.height))
    requires Data(img, "dimensions") == "1200x800"
    ensures ReserveWith(subst, img) == Ratio(1200, 800)
  {
    var s := Data(img, "dimensions");
    NormalizeAround(subst, s, 4);
    assert s[..4] + "x" + s[5..] == "1200x800";
    Parse1200x800(subst, s);
  }

  /** As written, a dimensions string with the multiplication sign is not
      read, so the card falls through to data-w/data-h; the intended class
      reads it. */
  lemma MultiplicationSignFallsThrough(img: ImgNode)
    requires !(Truthy(img.width) && Truthy(img.height))
    requires Data(img, "dimensions") == "1200\U{00D7}800"
    requires img.dataW == Some(4) && img.dataH == Some(3)
    ensures Reserve(img) == Ratio(4, 3)
    ensures ReserveIntended(img) == Ratio(1200, 800)
  {
    WrittenClassMissesMultiplicationSign(Data(img, "dimensions"));
  }

  /** The ratio after the load handler has run with the image's intrinsic size:
      a non-zero intrinsic size replaces whatever was reserved. */
  function Correct(r: Ratio, naturalW: nat, naturalH: nat): (c: Ratio)
    ensures naturalW != 0 && naturalH != 0 ==> c == Ratio(naturalW, naturalH)
    ensures naturalW == 0 || naturalH == 0 ==> c == r
  {
    if naturalW != 0 && naturalH != 0 then Ratio(naturalW, naturalH) else r
  }

  /** An image already complete runs the correction twice, once at once and
      once in a microtask; the second run changes nothing. */
  lemma CorrectTwiceIsCorrectOnce(r: Ratio, naturalW: nat, naturalH: nat)
    ensures Correct(Correct(r, naturalW, naturalH), naturalW, naturalH) == Correct(r, naturalW, naturalH)
  {
  }

  /** After load the ratio is non-zero in both parts, and it is the intrinsic
      size whenever the image reports one, regardless of the attributes. */
  lemma LoadedRatio(subst: set<char>, img: ImgNode, naturalW: nat, naturalH: nat)
    ensures var c := Correct(ReserveWith(subst, img), naturalW, naturalH);
      && c.w != 0 && c.h != 0
      && (naturalW != 0 && naturalH != 0 ==> c == Ratio(naturalW, naturalH))
  {
  }

  /** A dimensions string whose numbers include a zero still counts as found,
      so data-w/data-h are never consulted and the fallback is reserved. */
  lemma ZeroDimensionsHideDataAttributes(subst: set<char>, img: ImgNode)
    requires !(Truthy(img.width) && Truthy(img.height))
    requires Normalize(subst, Data(img, "dimensions")) == "00x00"
    requires img.dataW == Some(4) && img.dataH == Some(3)
    ensures ReserveWith(subst, img) == Fallback
  {
    ZerosParseAsZero(subst, Data(img, "dimensions"));
  }

  datatype Orientation = Portrait | Landscape

  /** The classes a card carries after the tag handler has run with the image's
      intrinsic size: nothing happens without a size; otherwise exactly one of
      "portrait" and "landscape" is set, portrait meaning taller than 1.1 times
      the width. */
  function Tag(classes: set<string>, naturalW: nat, naturalH: nat): (r: set<string>)
    ensures naturalW == 0 || naturalH == 0 ==> r == classes
    ensures naturalW != 0 && naturalH != 0 ==>
              && ("portrait" in r <==> 10 * naturalH > 11 * naturalW)
              && ("landscape" in r <==> 10 * naturalH <= 11 * naturalW)
              && r - {"portrait", "landscape"} == classes - {"portrait", "landscape"}
  {
    if naturalW == 0 || naturalH == 0 then classes
    else if 10 * naturalH > 11 * naturalW then classes + {"portrait"} - {"landscape"}
    else classes + {"landscape"} - {"portrait"}
  }

  /** The tag handler may run twice on an image already loaded; the second run
      changes nothing. */
  lemma TagTwiceIsTagOnce(classes: set<string>, naturalW: nat, naturalH: nat)
    ensures Tag(Tag(classes, naturalW, naturalH), naturalW, naturalH) == Tag(classes, naturalW, naturalH)
  {
  }
}
