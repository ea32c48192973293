/** The `keydown` handler of app.js:77-88: five keys scroll the deck
    container by one window height, forwards or backwards, and suppress
    the browser's default action; every other key is left alone. */
module Keyboard {
  import opened JsValues
  import opened Slides
  import opened Deck

  /** What one `keydown` does: the `top` offset passed to
      `container.scrollBy` (none when it is not called) and whether
      `preventDefault` is called. */
  datatype KeyEffect = KeyEffect(scrollBy: Option<int>, preventDefault: bool)

  /** The key codes that advance by one screen. */
  const AdvanceKeys: set<string> := {"Space", "ArrowDown", "ArrowRight"}

  /** The key codes that go back by one screen. */
  const RetreatKeys: set<string> := {"ArrowUp", "ArrowLeft"}

  /** The handler for `e.code`, with `window.innerHeight` as read when the
      key is pressed. */
  function OnKeyDown(code: string, innerHeight: nat): (r: KeyEffect)
    ensures code in AdvanceKeys <==> r == KeyEffect(Some(innerHeight), true) && code !in RetreatKeys
    ensures code in RetreatKeys ==> r == KeyEffect(Some(-(innerHeight as int)), true)
    ensures r.preventDefault <==> code in AdvanceKeys + RetreatKeys
    ensures r.scrollBy.Some? <==> r.preventDefault
    ensures r.scrollBy.Some? ==> r.scrollBy.value == innerHeight || r.scrollBy.value == -(innerHeight as int)
  {
    if code == "Space" || code == "ArrowDown" || code == "ArrowRight" then
      KeyEffect(Some(innerHeight), true)
    else if code == "ArrowUp" || code == "ArrowLeft" then
      KeyEffect(Some(-(innerHeight as int)), true)
    else
      KeyEffect(None, false)
  }

  /** A key pressed on the page loaded from `f`: the handler is only
      installed when the fetch succeeded and every slide rendered, so after
      the error message no key scrolls or prevents the default. */
  function KeyOnPage(f: Fetch, code: string, innerHeight: nat): (r: KeyEffect)
    ensures r == if f.Fetched? && forall i :: 0 <= i < |f.slides| ==> BuildHtml(f.slides[i]).Success?
      then OnKeyDown(code, innerHeight)
      else KeyEffect(None, false)
  {
    if Load(f).listening then OnKeyDown(code, innerHeight) else KeyEffect(None, false)
  }

  /** Advancing then going back by one key each returns to the same
      scroll offset: the two groups move by opposite amounts. */
  lemma AdvanceThenRetreatCancels(forward: string, back: string, innerHeight: nat)
    requires forward in AdvanceKeys && back in RetreatKeys
    ensures OnKeyDown(forward, innerHeight).scrollBy.value + OnKeyDown(back, innerHeight).scrollBy.value == 0
  {
  }
}
