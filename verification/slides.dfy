/** One slide of the content document and the markup fragments `renderDeck`
    builds for it (app.js:26-60). The builder `BuildHtml` follows the
    source's sequential string building, including the overwrite of the
    heading by the title block; `HeadingPart`, `ListPart` and `SplitPart`
    give the same result as an explicit match over the slide's shape, and
    `BuildHtml`'s contract ties the two together. */
module Slides {
  import opened JsValues

  /** One card of a before/after slide: the JSON object in `left` or `right`. */
  datatype Card = Card(title: Option<string>, bullets: Option<seq<string>>)

  /** One entry of the `slides` array. `kind` is the JSON field `type`. */
  datatype Slide = Slide(
    kind: Option<string>,
    headline: Option<string>,
    subheadline: Option<string>,
    bullets: Option<seq<string>>,
    left: Option<Card>,
    right: Option<Card>)

  /** A rendered card: the text of its `<h3>` and of its `<li>` items. */
  datatype CardBlock = CardBlock(title: string, items: seq<string>)

  /** The markup pieces a slide's inner HTML is made of. Text is kept
      verbatim: the source splices it into markup without escaping. */
  datatype Fragment =
    | H1(text: string)                          // <h1 data-animate="1">
    | H2(text: string)                          // <h2 data-animate="1">
    | P(text: string)                           // <p data-animate="2">
    | Ul(items: seq<string>)                    // <ul data-animate="3">, one <li> per item
    | Split(left: CardBlock, right: CardBlock)  // <div class="split-grid" data-animate="3">

  datatype Side = Left | Right

  /** The TypeError the template throws on a before/after slide: reading
      `title` of an absent card, or calling `map` on absent card bullets. */
  datatype RenderError = MissingCard(side: Side) | MissingCardBullets(side: Side)

  const TitleKind := "title"
  const BeforeAfterKind := "beforeAfter"

  /** The shape whose heading is the `<h1>` title block. */
  predicate IsTitleWithSubheadline(s: Slide)
  {
    s.kind == Some(TitleKind) && Truthy(s.subheadline)
  }

  /** A card is complete when it is present and has a `bullets` list;
      an absent `title` does not throw, it prints as `undefined`. */
  predicate CardComplete(card: Option<Card>)
  {
    card.Some? && card.value.bullets.Some?
  }

  /** `<h3>${c.title}</h3><ul>${c.bullets.map(...)}</ul>` for one card,
      evaluated left to right as the template does. */
  function CardBlockOf(card: Option<Card>, side: Side): (r: Result<CardBlock, RenderError>)
    ensures r.Success? <==> CardComplete(card)
    ensures r.Success? ==> r.value.items == card.value.bullets.value
    ensures r.Success? ==> r.value.title == Interpolate(card.value.title)
    ensures card.None? ==> r == Failure(MissingCard(side))
    ensures card.Some? && card.value.bullets.None? ==> r == Failure(MissingCardBullets(side))
  {
    match card
    case None => Failure(MissingCard(side))
    case Some(c) =>
      match c.bullets
      case None => Failure(MissingCardBullets(side))
      case Some(bs) => Success(CardBlock(Interpolate(c.title), bs))
  }

  /** Reference definition of the heading block, decided once by the slide's
      shape: the title block replaces the plain heading, otherwise headline
      and subheadline each appear when truthy. */
  function HeadingPart(s: Slide): (r: seq<Fragment>)
    ensures |r| == if IsTitleWithSubheadline(s) then 2
      else (if Truthy(s.headline) then 1 else 0) + (if Truthy(s.subheadline) then 1 else 0)
    ensures forall f :: f in r ==> f.H1? || f.H2? || f.P?
    ensures (exists f :: f in r && f.H1?) <==> IsTitleWithSubheadline(s)
    ensures (exists f :: f in r && f.H2?) <==> Truthy(s.headline) && !IsTitleWithSubheadline(s)
    ensures (exists f :: f in r && f.P?) <==> Truthy(s.subheadline)
    ensures IsTitleWithSubheadline(s) ==> r == [H1(Interpolate(s.headline)), P(s.subheadline.value)]
    ensures forall f :: f in r && f.H2? ==> f.text == s.headline.value
    ensures forall f :: f in r && f.P? ==> f.text == s.subheadline.value
    ensures forall i, j :: 0 <= i < j < |r| ==> r[i].P? ==> r[j].P?
  {
    if IsTitleWithSubheadline(s) then
      var r := [H1(Interpolate(s.headline)), P(s.subheadline.value)];
      assert r[0] in r && r[1] in r;
      r
    else
      var heading := if Truthy(s.headline) then [H2(s.headline.value)] else [];
      var sub := if Truthy(s.subheadline) then [P(s.subheadline.value)] else [];
      var r := heading + sub;
      assert Truthy(s.headline) ==> r[0] in r;
      assert Truthy(s.subheadline) ==> r[|r| - 1] in r;
      r
  }

  /** Reference definition of the bullet list: one `<ul>` exactly when the
      slide has a non-empty `bullets` list, holding those bullets in order. */
  function ListPart(s: Slide): (r: seq<Fragment>)
    ensures |r| <= 1
    ensures r != [] <==> NonEmptyList(s.bullets)
    ensures forall f :: f in r ==> f == Ul(s.bullets.value)
  {
    if NonEmptyList(s.bullets) then [Ul(s.bullets.value)] else []
  }

  /** Reference definition of the before/after grid: only on `beforeAfter`
      slides, left card then right card, and an error when either card or
      its bullets are absent. */
  function SplitPart(s: Slide): (r: Result<seq<Fragment>, RenderError>)
    ensures s.kind != Some(BeforeAfterKind) ==> r == Success([])
    ensures s.kind == Some(BeforeAfterKind) ==>
      (r.Success? <==> CardComplete(s.left) && CardComplete(s.right))
    ensures s.kind == Some(BeforeAfterKind) && r.Success? ==>
      r.value == [Split(CardBlock(Interpolate(s.left.value.title), s.left.value.bullets.value),
                        CardBlock(Interpolate(s.right.value.title), s.right.value.bullets.value))]
    ensures r.Failure? && !CardComplete(s.left) ==> r.error.side == Left
    ensures r.Failure? && CardComplete(s.left) ==> r.error.side == Right
  {
    if s.kind != Some(BeforeAfterKind) then Success([])
    else
      match CardBlockOf(s.left, Left)
      case Failure(e) => Failure(e)
      case Success(l) =>
        match CardBlockOf(s.right, Right)
        case Failure(e) => Failure(e)
        case Success(rt) => Success([Split(l, rt)])
  }

  /** The inner HTML of one slide, built as the source builds it: start
      from the plain `<h2>` headline, then let a title slide with a
      subheadline overwrite everything built so far (the headline is
      interpolated even when absent), then append the subheadline, the
      bullet list and the split grid. */
  function BuildHtml(s: Slide): (r: Result<seq<Fragment>, RenderError>)
    ensures r.Success? <==> SplitPart(s).Success?
    ensures r.Failure? ==> r.error == SplitPart(s).error
    ensures r.Success? ==> r.value == HeadingPart(s) + ListPart(s) + SplitPart(s).value
    ensures s.kind != Some(BeforeAfterKind) ==> r.Success?
    ensures IsTitleWithSubheadline(s) ==>
      r.Success? && r.value[..2] == [H1(Interpolate(s.headline)), P(s.subheadline.value)]
      && forall f :: f in r.value ==> !f.H2?
    ensures r.Success? ==> forall b :: Ul(b) in r.value <==> NonEmptyList(s.bullets) && b == s.bullets.value
  {
    var html0 := if Truthy(s.headline) then [H2(s.headline.value)] else [];
    var html1 :=
      if Truthy(s.subheadline) && s.kind == Some(TitleKind) then
        [H1(Interpolate(s.headline)), P(s.subheadline.value)]
      else if Truthy(s.subheadline) then
        html0 + [P(s.subheadline.value)]
      else
        html0;
    var html2 := if NonEmptyList(s.bullets) then html1 + [Ul(s.bullets.value)] else html1;
    if s.kind == Some(BeforeAfterKind) then
      match CardBlockOf(s.left, Left)
      case Failure(e) => Failure(e)
      case Success(l) =>
        match CardBlockOf(s.right, Right)
        case Failure(e) => Failure(e)
        case Success(rt) => Success(html2 + [Split(l, rt)])
    else
      Success(html2)
  }
}
