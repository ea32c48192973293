/** The PDF document the export assembles (app.js:100-124), seen only
    through the calls made on it. The rasteriser and the PDF library are
    opaque: an image is identified by the staged slide clone it was drawn
    from, and the document by its `addPage`/`addImage` calls. A new
    document already holds one empty page. */
module Pdf {
  import opened Deck

  const FileName := "FlowPitch.pdf"

  /** `canvas.toDataURL('image/png')` of the stage holding `content`. */
  datatype Image = Png(content: Section)

  /** A call on the document, in the order made. */
  datatype PdfCall = AddPage | AddImage(image: Image)

  /** `pdf.save(FileName)`: the file name and the pages as saved. */
  datatype Download = Download(fileName: string, pages: seq<seq<Image>>)

  function AddPageCount(calls: seq<PdfCall>): nat
    decreases |calls|
  {
    if |calls| == 0 then 0
    else AddPageCount(calls[..|calls| - 1]) + (if calls[|calls| - 1].AddPage? then 1 else 0)
  }

  function AddImageCount(calls: seq<PdfCall>): nat
    decreases |calls|
  {
    if |calls| == 0 then 0
    else AddImageCount(calls[..|calls| - 1]) + (if calls[|calls| - 1].AddImage? then 1 else 0)
  }

  /** The pages a document holds after `calls`: it starts with one empty
      page, `addPage` appends an empty page, and `addImage` draws on the
      current (last) page. */
  function Pages(calls: seq<PdfCall>): (pages: seq<seq<Image>>)
    ensures |pages| == 1 + AddPageCount(calls)
    decreases |calls|
  {
    if |calls| == 0 then [[]]
    else
      var before := Pages(calls[..|calls| - 1]);
      match calls[|calls| - 1]
      case AddPage => before + [[]]
      case AddImage(img) => before[..|before| - 1] + [before[|before| - 1] + [img]]
  }

  /** One more call, seen on the page list: `addPage` opens an empty page
      after the existing ones, `addImage` adds to the last page only. */
  lemma PagesAfterCall(calls: seq<PdfCall>, c: PdfCall)
    ensures c.AddPage? ==> Pages(calls + [c]) == Pages(calls) + [[]]
    ensures c.AddImage? ==>
      Pages(calls + [c]) == Pages(calls)[..|Pages(calls)| - 1] + [Pages(calls)[|Pages(calls)| - 1] + [c.image]]
    ensures AddPageCount(calls + [c]) == AddPageCount(calls) + (if c.AddPage? then 1 else 0)
    ensures AddImageCount(calls + [c]) == AddImageCount(calls) + (if c.AddImage? then 1 else 0)
  {
    assert (calls + [c])[..|calls|] == calls;
  }
}
