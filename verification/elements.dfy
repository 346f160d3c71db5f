/**
 * The candidate elements the hint overlay scans, stripped of the DOM.
 *
 * An element is a record of its inline style values, its bounding box as
 * integers, and the attributes click resolution looks at. The overlay keeps
 * only the elements that are neither hidden by style nor outside the page's
 * client area.
 */
module Elements {

  /** A descendant of a candidate element, as far as the play-button selectors see it.
      An absent attribute is the empty string: neither selector matches it. */
  datatype Node = Node(id: nat, tagName: string, dataTaId: string, dataButton: string)

  /** The result of `getBoundingClientRect`, with integer coordinates. */
  datatype Rect = Rect(top: int, left: int, bottom: int, right: int, width: int, height: int)

  /** The client size of `document.body`, the box the bounds are checked against. */
  datatype Viewport = Viewport(clientWidth: int, clientHeight: int)

  /** A candidate element: inline style values, bounds, and click-related attributes. */
  datatype Element = Element(
    id: nat,
    display: string,
    visibility: string,
    opacity: string,
    bounds: Rect,
    hasHref: bool,
    tagName: string,
    descendants: seq<Node>)

  /** Hidden by its inline style. The values are compared as strings, exactly. */
  predicate StyleHidden(e: Element) {
    e.display == "none" || e.visibility == "hidden" || e.opacity == "0"
  }

  /** Any one of the six geometric rejections. */
  predicate OffScreen(b: Rect, vp: Viewport) {
    || b.bottom > vp.clientHeight
    || b.left > vp.clientWidth
    || b.right < 0
    || b.top < 0
    || b.width == 0
    || b.height == 0
  }

  /** An element that receives a hint. */
  predicate Visible(e: Element, vp: Viewport) {
    !StyleHidden(e) && !OffScreen(e.bounds, vp)
  }

  /** The candidates that survive the filter, in document order. */
  function Survivors(elems: seq<Element>, vp: Viewport): (r: seq<Element>)
    ensures |r| <= |elems|
    ensures forall k :: 0 <= k < |r| ==> r[k] in elems && Visible(r[k], vp)
    decreases |elems|
  {
    if elems == [] then []
    else
      var last := elems[|elems| - 1];
      Survivors(elems[..|elems| - 1], vp) + (if Visible(last, vp) then [last] else [])
  }

  /** Survival is exactly visibility: no visible candidate is lost. */
  lemma {:induction false} SurvivorsMembership(elems: seq<Element>, vp: Viewport, e: Element)
    ensures e in Survivors(elems, vp) <==> e in elems && Visible(e, vp)
    decreases |elems|
  {
    if elems != [] {
      var init := elems[..|elems| - 1];
      var last := elems[|elems| - 1];
      assert elems == init + [last];
      SurvivorsMembership(init, vp, e);
    }
  }

  /** The filter works element by element and keeps document order: a hidden
      element neither takes a position nor shifts the positions of the others. */
  lemma {:induction false} SurvivorsAppend(a: seq<Element>, b: seq<Element>, vp: Viewport)
    ensures Survivors(a + b, vp) == Survivors(a, vp) + Survivors(b, vp)
    decreases |b|
  {
    if b == [] {
      assert a + b == a;
    } else {
      var binit := b[..|b| - 1];
      var last := b[|b| - 1];
      assert (a + b)[..|a + b| - 1] == a + binit;
      assert (a + b)[|a + b| - 1] == last;
      SurvivorsAppend(a, binit, vp);
    }
  }
}
