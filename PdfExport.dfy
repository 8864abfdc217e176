/** `handleViewPdf` (components/EventDisplay.tsx): lay the month groups out as
    page containers in a hidden wrapper, then capture the containers one at a
    time into a new PDF, open it, and clean up whether or not that worked. */
module PdfExport {
  import opened Options
  import opened Strings
  import opened Events
  import opened Pagination

  /** A captured page: the `image/png` data URL of its canvas. */
  type Image = string

  /** `html2canvas` on a page container followed by `toDataURL`; `None` when
      capturing (or drawing the result into the document) throws. */
  type Capture = Page -> Option<Image>

  /** A jsPDF document: its pages in order, each the images drawn on it. */
  type Document = seq<seq<Image>>

  /** `new jsPDF(...)` starts with one blank page. */
  const NewDocument: Document := [[]]

  /** `pdf.addPage()` */
  function AddPage(doc: Document): (r: Document)
    ensures |r| == |doc| + 1 && r[..|doc|] == doc && r[|doc|] == []
  {
    doc + [[]]
  }

  /** `pdf.addImage(...)`: draws the image on the current (last) page. */
  function AddImage(doc: Document, img: Image): (r: Document)
    requires doc != []
    ensures |r| == |doc| && r[..|doc| - 1] == doc[..|doc| - 1] && r[|doc| - 1] == doc[|doc| - 1] + [img]
  {
    doc[..|doc| - 1] + [doc[|doc| - 1] + [img]]
  }

  /** The document the render loop builds from the captured images: a new
      document, a new page before every image but the first, each image
      drawn on the page then current. */
  function Assembled(images: seq<Image>): (d: Document)
    ensures d != []
  {
    if images == [] then NewDocument
    else
      var prev := Assembled(images[..|images| - 1]);
      AddImage(if |images| > 1 then AddPage(prev) else prev, images[|images| - 1])
  }

  /** The assembled document has one page per image, page `i` holding exactly
      image `i`; with no image it is the new document's single blank page. */
  lemma {:induction false} AssembledPages(images: seq<Image>)
    ensures images == [] ==> Assembled(images) == [[]]
    ensures images != [] ==> |Assembled(images)| == |images|
    ensures forall i :: 0 <= i < |images| ==> Assembled(images)[i] == [images[i]]
  {
    if images != [] {
      var init := images[..|images| - 1];
      AssembledPages(init);
      var d := Assembled(images);
      forall i | 0 <= i < |images| ensures d[i] == [images[i]] {
        if i < |images| - 1 {
          assert init[i] == images[i];
        }
      }
    }
  }

  /** Every page captured in order; `None` as soon as one capture fails. */
  function CaptureAll(pages: seq<Page>, capture: Capture): Option<seq<Image>> {
    if pages == [] then Some([])
    else
      match CaptureAll(pages[..|pages| - 1], capture)
      case None => None
      case Some(images) =>
        match capture(pages[|pages| - 1])
        case None => None
        case Some(img) => Some(images + [img])
  }

  /** Capturing succeeds exactly when every page can be captured, and then
      yields one image per page, in page order. */
  lemma {:induction false} CaptureAllMeaning(pages: seq<Page>, capture: Capture)
    ensures CaptureAll(pages, capture).Some? <==> forall i :: 0 <= i < |pages| ==> capture(pages[i]).Some?
    ensures CaptureAll(pages, capture).Some? ==>
      var images := CaptureAll(pages, capture).value;
      |images| == |pages| && forall i :: 0 <= i < |pages| ==> images[i] == capture(pages[i]).value
  {
    if pages != [] {
      var init := pages[..|pages| - 1];
      CaptureAllMeaning(init, capture);
      assert forall i :: 0 <= i < |init| ==> init[i] == pages[i];
      if CaptureAll(init, capture).None? {
        var i :| 0 <= i < |init| && capture(init[i]).None?;
        assert capture(pages[i]).None?;
      }
    }
  }

  /** One more image is drawn on a new page, unless it is the first. */
  lemma AssembledSnoc(images: seq<Image>, img: Image)
    ensures Assembled(images + [img])
      == AddImage(if images != [] then AddPage(Assembled(images)) else Assembled(images), img)
  {
  }

  /** Capturing one more page extends the captured images, and a failed
      capture makes the whole capture fail. */
  lemma CaptureStep(pages: seq<Page>, i: nat, capture: Capture, images: seq<Image>)
    requires i < |pages|
    requires CaptureAll(pages[..i], capture) == Some(images)
    ensures capture(pages[i]).Some? ==> CaptureAll(pages[..i + 1], capture) == Some(images + [capture(pages[i]).value])
    ensures capture(pages[i]).None? ==> CaptureAll(pages, capture).None?
  {
    if capture(pages[i]).Some? {
      var p := pages[..i + 1];
      assert p[..|p| - 1] == pages[..i];
      assert p[|p| - 1] == pages[i];
    } else {
      CaptureAllMeaning(pages, capture);
    }
  }

  /** The export's pages for one more month group follow those before it. */
  lemma ExportPagesStep(keys: seq<string>, m: nat, groups: map<string, seq<Event>>, periodo: string,
                        monthName: string -> string)
    requires m < |keys|
    requires forall k :: k in keys ==> k in groups
    ensures ExportPages(keys[..m + 1], groups, periodo, monthName)
      == ExportPages(keys[..m], groups, periodo, monthName) + MonthPages(periodo, monthName(keys[m]), groups[keys[m]])
  {
    assert keys[..m + 1][..m] == keys[..m];
  }

  /** When every capture succeeds, the opened document has one page per page
      container (a single blank page when there is none), and page `i` shows
      the capture of container `i`. */
  lemma OpenedDocumentPages(pages: seq<Page>, capture: Capture)
    requires forall i :: 0 <= i < |pages| ==> capture(pages[i]).Some?
    ensures CaptureAll(pages, capture).Some?
    ensures var d := Assembled(CaptureAll(pages, capture).value);
      |d| == (if pages == [] then 1 else |pages|)
      && forall i :: 0 <= i < |pages| ==> d[i] == [capture(pages[i]).value]
  {
    CaptureAllMeaning(pages, capture);
    AssembledPages(CaptureAll(pages, capture).value);
  }

  /** An export with no month group still opens a document: one blank page. */
  lemma EmptyExportOpensBlank(groups: map<string, seq<Event>>, periodo: string, monthName: string -> string,
                              capture: Capture)
    ensures ExportPages([], groups, periodo, monthName) == []
    ensures CaptureAll([], capture) == Some([])
    ensures Assembled(CaptureAll([], capture).value) == [[]]
  {
  }

  /** The `try` block of the render: a new document, then the page
      containers captured one at a time in order, a new page added before
      each but the first and the capture drawn on it. `None` when a capture
      throws, which abandons the document. */
  method RenderPages(containers: seq<Page>, capture: Capture) returns (doc: Option<Document>)
    ensures doc.Some? <==> CaptureAll(containers, capture).Some?
    ensures doc.Some? ==> doc.value == Assembled(CaptureAll(containers, capture).value)
  {
    var pdf := NewDocument;
    ghost var images: seq<Image> := [];
    var i := 0;
    while i < |containers|
      invariant 0 <= i <= |containers| && |images| == i
      invariant CaptureAll(containers[..i], capture) == Some(images)
      invariant pdf == Assembled(images)
    {
      var img := capture(containers[i]);
      CaptureStep(containers, i, capture, images);
      if img.None? {
        return None;
      }
      AssembledSnoc(images, img.value);
      if i > 0 {
        pdf := AddPage(pdf);
      }
      pdf := AddImage(pdf, img.value);
      images := images + [img.value];
      i := i + 1;
    }
    assert containers[..i] == containers;
    return Some(pdf);
  }

  /** One press of the export button: the flag that disables it, the hidden
      wrapper holding the page containers, and what the user is shown. */
  class ExportSession {
    /** `isGeneratingPdf` */
    var inFlight: bool
    /** Whether the hidden wrapper is attached to `document.body`. */
    var wrapperAttached: bool
    /** The page containers in the wrapper, in order. */
    var pages: seq<Page>
    /** The documents opened in a new tab, in order. */
    var shown: seq<Document>
    /** How many error alerts were shown. */
    var alerts: nat

    /** Between operations the wrapper is attached exactly while an export is
        in flight, and a detached wrapper holds nothing. */
    predicate Valid()
      reads this
    {
      inFlight == wrapperAttached && (!wrapperAttached ==> pages == [])
    }

    constructor()
      ensures Valid() && !inFlight
      ensures pages == [] && shown == [] && alerts == 0
    {
      inFlight, wrapperAttached := false, false;
      pages, shown, alerts := [], [], 0;
    }

    /** The synchronous part of `handleViewPdf`. Without the content region it
        returns at once, changing nothing; otherwise it raises the flag,
        attaches the wrapper and fills it with the month groups' pages: the
        months in the order of `keys`, each month's chunks in order.
        `monthName(k)` is the heading text of month `k`. The button is
        disabled while an export is in flight, so none is. */
    method BeginExport(contentPresent: bool, keys: seq<string>, groups: map<string, seq<Event>>,
                       periodo: string, monthName: string -> string) returns (started: bool)
      requires Valid() && !inFlight
      requires forall k :: k in keys ==> k in groups
      modifies this
      ensures Valid()
      ensures started == contentPresent
      ensures !started ==> !inFlight && !wrapperAttached && pages == old(pages)
      ensures started ==> inFlight && wrapperAttached && pages == ExportPages(keys, groups, periodo, monthName)
      ensures shown == old(shown) && alerts == old(alerts)
    {
      if !contentPresent {
        return false;
      }
      inFlight := true;
      wrapperAttached := true;
      pages := [];
      var m := 0;
      while m < |keys|
        invariant 0 <= m <= |keys|
        invariant inFlight && wrapperAttached
        invariant shown == old(shown) && alerts == old(alerts)
        invariant pages == ExportPages(keys[..m], groups, periodo, monthName)
      {
        var key := keys[m];
        LayOutMonth(periodo, monthName(key), groups[key]);
        ExportPagesStep(keys, m, groups, periodo, monthName);
        m := m + 1;
      }
      assert keys[..m] == keys;
      return true;
    }

    /** The `forEach` callback for one month group, run while the wrapper is
        attached: its cards cut into slices of twelve, each slice made a page and the pages appended to the
        wrapper in order, each titled with
        the period (numbered when the month takes more than one page) and
        headed with the month's title (marked as a continuation after the
        first page). */
    method LayOutMonth(periodo: string, monthTitle: string, cards: seq<Event>)
      requires Valid() && wrapperAttached
      modifies this
      ensures Valid()
      ensures pages == old(pages) + MonthPages(periodo, monthTitle, cards)
      ensures inFlight == old(inFlight) && wrapperAttached == old(wrapperAttached)
      ensures shown == old(shown) && alerts == old(alerts)
    {
      var totalPages := (|cards| + CardsPerPage - 1) / CardsPerPage;
      ghost var monthPages := MonthPages(periodo, monthTitle, cards);
      var appended: seq<Page> := [];
      var i := 0;
      while i < totalPages
        invariant 0 <= i <= totalPages == |monthPages|
        invariant appended == monthPages[..i]
        invariant unchanged(this)
      {
        var start := i * CardsPerPage;
        var end := start + CardsPerPage;
        var chunk := Slice(cards, start, end);
        var titleText := TitlePrefix + periodo;
        if totalPages > 1 {
          titleText := titleText + (" (" + Decimal(i + 1) + "/" + Decimal(totalPages) + ")");
        } else {
          assert titleText + "" == titleText;
        }
        var header := monthTitle + (if i > 0 then ContinuationMarker else "");
        MonthPage(periodo, monthTitle, cards, i);
        appended := appended + [Page(titleText, header, chunk)];
        assert monthPages[..i + 1] == monthPages[..i] + [monthPages[i]];
        i := i + 1;
      }
      assert monthPages[..i] == monthPages;
      pages := pages + appended;
    }

    /** The `requestAnimationFrame` callback: the page containers rendered
        into a new document, which is opened; any failure shows an alert
        instead, and either way the wrapper is removed and the flag lowered. */
    method RenderDocument(capture: Capture) returns (ok: bool)
      requires Valid() && inFlight
      modifies this
      ensures Valid() && !inFlight && !wrapperAttached
      ensures ok <==> CaptureAll(old(pages), capture).Some?
      ensures ok ==>
        shown == old(shown) + [Assembled(CaptureAll(old(pages), capture).value)] && alerts == old(alerts)
      ensures !ok ==> shown == old(shown) && alerts == old(alerts) + 1
    {
      var doc := RenderPages(pages, capture);
      ok := doc.Some?;
      if ok {
        shown := shown + [doc.value];
      } else {
        alerts := alerts + 1;
      }
      wrapperAttached := false;
      pages := [];
      inFlight := false;
    }

    /** `handleViewPdf` from the button press to the end of the render. */
    method ViewPdf(contentPresent: bool, keys: seq<string>, groups: map<string, seq<Event>>,
                   periodo: string, monthName: string -> string, capture: Capture)
      returns (started: bool, ok: bool)
      requires Valid() && !inFlight
      requires forall k :: k in keys ==> k in groups
      modifies this
      ensures Valid() && !inFlight && !wrapperAttached
      ensures started == contentPresent
      ensures !started ==> !ok && shown == old(shown) && alerts == old(alerts)
      ensures started ==>
        var all := CaptureAll(ExportPages(keys, groups, periodo, monthName), capture);
        (ok <==> all.Some?)
        && (ok ==> shown == old(shown) + [Assembled(all.value)] && alerts == old(alerts))
        && (!ok ==> shown == old(shown) && alerts == old(alerts) + 1)
    {
      ok := false;
      started := BeginExport(contentPresent, keys, groups, periodo, monthName);
      if started {
        ok := RenderDocument(capture);
      }
    }
  }
}
