/** The page over its whole life: the deck loaded from `content.json`,
    scrolled through (the observer's callbacks), then exported. */
module Page {
  import opened Slides
  import opened Deck
  import opened Activation
  import opened Pdf
  import opened Export

  /** Scrolling does not change what is exported: after any observer
      callbacks, a successful export saves page `i` from section `i` as
      rendered, forced active. */
  lemma ExportAfterScrolling(sections: seq<Section>, batches: seq<seq<Entry>>, doc: Document, net: Network)
    requires forall k :: 0 <= k < |batches| ==> AboutDeck(|sections|, batches[k])
    requires doc.slides == AfterBatches(sections, batches)
    requires ExportSucceeds(doc, net)
    ensures var saved := ExportClick(doc, net).downloads[|doc.downloads|];
      && saved.fileName == FileName
      && |saved.pages| == (if |sections| == 0 then 1 else |sections|)
      && forall i :: 0 <= i < |sections| ==> saved.pages[i] == [Png(sections[i].(active := true))]
  {
    ActiveIsOneWay(sections, batches);
    SavedPagesFollowSlides(doc, net);
    var saved := ExportClick(doc, net).downloads[|doc.downloads|];
    forall i | 0 <= i < |sections|
      ensures saved.pages[i] == [Png(sections[i].(active := true))]
    {
      assert saved.pages[i] == [saved.pages[i][0]];
    }
  }

  /** Input order is page order: after loading a deck from `xs` and any
      observer callbacks, a successful export saves one page per slide,
      page `i` holding exactly the image of slide `xs[i]`'s section (its
      class and markup, forced active), whichever slides were scrolled
      past. */
  lemma LoadedDeckExportsInSlideOrder(xs: seq<Slide>, batches: seq<seq<Entry>>, doc: Document, net: Network)
    requires Load(Fetched(xs)).container.Sections?
    requires forall k :: 0 <= k < |batches| ==> AboutDeck(|xs|, batches[k])
    requires doc.slides == AfterBatches(Load(Fetched(xs)).container.sections, batches)
    requires ExportSucceeds(doc, net)
    ensures var saved := ExportClick(doc, net).downloads[|doc.downloads|];
      && saved.fileName == FileName
      && |saved.pages| == (if |xs| == 0 then 1 else |xs|)
      && forall i :: 0 <= i < |xs| ==>
        saved.pages[i] == [Png(Section(SlideClass(xs[i]), BuildHtml(xs[i]).value, true))]
  {
    var sections := Load(Fetched(xs)).container.sections;
    LoadedSectionsFollowSlides(xs);
    ExportAfterScrolling(sections, batches, doc, net);
  }
}
