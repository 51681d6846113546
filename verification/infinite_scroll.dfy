/**
 * The infinite-scroll trigger of src/hooks/useInfiniteScroll.ts: while a
 * list can grow and nothing is loading, a scroll that brings the bottom of
 * the viewport within `threshold` pixels of the end of the document asks for
 * more. Lengths are CSS pixels, modelled as reals.
 */
module InfiniteScroll {
  import opened Wrappers

  const DefaultThreshold: real := 200.0

  /** The threshold a caller passes, or the default when it passes none. */
  function ThresholdOf(given: Option<real>): (t: real)
    ensures given.Some? ==> t == given.value
    ensures given.None? ==> t == DefaultThreshold
  {
    given.GetOr(DefaultThreshold)
  }

  /** The scroll handler is installed only while nothing loads and more can come. */
  predicate Listening(isLoading: bool, hasMore: bool) {
    !isLoading && hasMore
  }

  /** The window and document measurements a scroll handler reads. */
  datatype Viewport = Viewport(scrollY: real, docScrollTop: real, scrollHeight: real, clientHeight: real)

  /** `window.scrollY || document.documentElement.scrollTop`. */
  function ScrollTop(v: Viewport): (top: real)
    ensures v.scrollY != 0.0 ==> top == v.scrollY
    ensures v.scrollY == 0.0 ==> top == v.docScrollTop
  {
    if v.scrollY != 0.0 then v.scrollY else v.docScrollTop
  }

  /** The bottom of the viewport is within `threshold` of the end of the document. */
  predicate NearBottom(v: Viewport, threshold: real) {
    ScrollTop(v) + v.clientHeight >= v.scrollHeight - threshold
  }

  /** One scroll event: whether `onLoadMore` is called. */
  function LoadRequested(isLoading: bool, hasMore: bool, v: Viewport, threshold: real): (fires: bool)
    ensures fires ==> !isLoading && hasMore
    ensures fires <==> Listening(isLoading, hasMore) && ScrollTop(v) + v.clientHeight + threshold >= v.scrollHeight
  {
    Listening(isLoading, hasMore) && NearBottom(v, threshold)
  }

  /** A larger threshold fires at every position a smaller one fires at. */
  lemma ThresholdMonotone(isLoading: bool, hasMore: bool, v: Viewport, t1: real, t2: real)
    requires t1 <= t2
    requires LoadRequested(isLoading, hasMore, v, t1)
    ensures LoadRequested(isLoading, hasMore, v, t2)
  {
  }

  /** At the very end of the document a scroll always asks for more, unless the handler is not installed. */
  lemma AtBottomFires(isLoading: bool, hasMore: bool, v: Viewport, threshold: real)
    requires threshold >= 0.0
    requires ScrollTop(v) + v.clientHeight >= v.scrollHeight
    ensures LoadRequested(isLoading, hasMore, v, threshold) <==> Listening(isLoading, hasMore)
  {
  }
}
