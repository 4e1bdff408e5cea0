/**
 * `getOffsetTop`: the distance of an element from the top of the page, found by adding
 * up `offsetTop` along the chain of `offsetParent`s. An element is a value holding its
 * own `offsetTop` and its parent, so every chain is finite and acyclic; `None` is null.
 */
module OffsetTop {
  import opened Wrappers

  datatype Element = Element(offsetTop: int, offsetParent: Option<Element>)

  /** The `offsetTop` of each element on the chain, starting with the element itself. */
  function Chain(e: Option<Element>): (tops: seq<int>)
    ensures e.None? <==> tops == []
    ensures e.Some? ==> tops[0] == e.value.offsetTop
  {
    match e
    case None => []
    case Some(x) => [x.offsetTop] + Chain(x.offsetParent)
  }

  function Sum(s: seq<int>): int {
    if |s| == 0 then 0 else s[0] + Sum(s[1..])
  }

  /** The loop of `getOffsetTop`, written as the source writes it. */
  method GetOffsetTop(element: Option<Element>) returns (offsetTop: int)
    ensures offsetTop == Sum(Chain(element))
    ensures element.None? ==> offsetTop == 0
    ensures element.Some? && element.value.offsetParent.None? ==> offsetTop == element.value.offsetTop
  {
    offsetTop := 0;
    var current := element;
    while current.Some?
      invariant offsetTop + Sum(Chain(current)) == Sum(Chain(element))
      decreases current
    {
      offsetTop := offsetTop + current.value.offsetTop;
      current := current.value.offsetParent;
    }
  }

  /** Each step of the loop: an element's distance is its own `offsetTop` plus its parent's. */
  lemma GetOffsetTopUnfolds(e: Element)
    ensures Sum(Chain(Some(e))) == e.offsetTop + Sum(Chain(e.offsetParent))
  {
  }
}
