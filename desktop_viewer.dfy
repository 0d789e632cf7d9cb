/** The desktop PDF viewer's view model (ViewModels/PdfViewerViewModel.cs): it loads the document
    once, keeps an error flag and message, generates one thumbnail per page, drives the page
    renderer at the active page, and disposes itself at most once.

    The render engine is an oracle: opening the document yields, for every page, the bitmap size
    and the packed B,G,R bytes that Render produces at thumbnail zoom, or a failure; initialising
    the page renderer either succeeds or throws. File.Exists is a boolean parameter. */
module DesktopViewer {
  import opened Common
  import opened PixelRepack

  /** What rendering one page at thumbnail zoom yields: the rounded bitmap size and its pixels, or
      the exception thrown by Render or by the bitmap's creation. */
  datatype RenderedPage = RenderedPage(width: nat, height: nat, pixels: seq<byte>) | RenderThrew(reason: string)

  /** A BGRA bitmap of the UI framework. */
  datatype Bitmap = Bitmap(width: nat, height: nat, bgra: seq<byte>)

  /** The record PageThumbnail(PageNumber, Image). */
  datatype PageThumbnail = PageThumbnail(pageNumber: int, image: Bitmap)

  /** Opening the document: its pages, or the exception's "{type}: {message}" text. */
  datatype OpenOutcome = Opened(pages: seq<RenderedPage>) | OpenFailed(reason: string)

  /** The attached page renderer (null is Detached) and the page it was last initialised at. */
  datatype Renderer = Detached | Attached(shownPage: Option<int>)

  /** The thumbnail caption: "Page " and the one-based page number. */
  function Title(t: PageThumbnail): (title: string)
    ensures |title| > 5 && title[..5] == "Page "
  {
    "Page " + IntToDecimal(t.pageNumber + 1)
  }

  /** The caption of the thumbnail of page index i reads back as i + 1. */
  lemma TitleNumbersFromOne(t: PageThumbnail)
    requires t.pageNumber >= 0
    ensures forall i :: 5 <= i < |Title(t)| ==> IsDigit(Title(t)[i])
    ensures DecimalValue(Title(t)[5..]) == t.pageNumber + 1
  {
    assert Title(t)[5..] == NatToDecimal(t.pageNumber + 1);
    DecimalRoundTrip(t.pageNumber + 1);
  }

  const DocumentMissingPrefix := "ERROR: Document path missing at "
  const AttachWarning := "WARNING: Cannot attach renderer - document not initialized"
  const AttachFailurePrefix := "ERROR in AttachRenderer: "
  const LoadFailurePrefix := "CRITICAL ERROR in EnsureDocumentLoaded: "

  /** A page that renders to a buffer the repack loop can copy. */
  predicate Renders(page: RenderedPage)
  {
    page.RenderedPage? && Fits(|page.pixels|, page.width, page.height)
  }

  /** CreateThumbnail for one page index: the repacked bitmap, or None where the source throws
      (index out of range in Pages, a failing render or bitmap creation, or an index out of range
      in the repack loop). */
  function ThumbnailFor(pages: seq<RenderedPage>, pageNumber: int): (t: Option<PageThumbnail>)
    ensures t.Some? <==> 0 <= pageNumber < |pages| && Renders(pages[pageNumber])
    ensures t.Some? ==> t.value.pageNumber == pageNumber
                        && t.value.image.width == pages[pageNumber].width
                        && t.value.image.height == pages[pageNumber].height
  {
    if 0 <= pageNumber < |pages| then
      var page := pages[pageNumber];
      if Renders(page) then
        Some(PageThumbnail(pageNumber, Bitmap(page.width, page.height, ThumbnailBuffer(page.pixels, page.width, page.height))))
      else None
    else None
  }

  /** The first page index at or after `from` whose thumbnail throws, or the page count. */
  function FirstFailureFrom(pages: seq<RenderedPage>, from: nat): (r: nat)
    requires from <= |pages|
    ensures from <= r <= |pages|
    ensures forall i :: from <= i < r ==> ThumbnailFor(pages, i).Some?
    ensures r < |pages| ==> ThumbnailFor(pages, r).None?
    decreases |pages| - from
  {
    if from == |pages| || ThumbnailFor(pages, from).None? then from else FirstFailureFrom(pages, from + 1)
  }

  /** The thumbnail list after a generation run: one thumbnail per page, in index order, up to the
      first page that throws. */
  ghost predicate GeneratedThumbnails(pages: seq<RenderedPage>, thumbnails: seq<PageThumbnail>)
  {
    && |thumbnails| == FirstFailureFrom(pages, 0)
    && forall i :: 0 <= i < |thumbnails| ==> ThumbnailFor(pages, i) == Some(thumbnails[i])
  }

  /** Generated thumbnails are numbered 0, 1, 2, ... and captioned "Page 1", "Page 2", ...; when
      every page renders to a buffer that fits, there is exactly one per page. */
  lemma GeneratedInPageOrder(pages: seq<RenderedPage>, thumbnails: seq<PageThumbnail>)
    requires GeneratedThumbnails(pages, thumbnails)
    ensures |thumbnails| <= |pages|
    ensures forall i :: 0 <= i < |thumbnails| ==> thumbnails[i].pageNumber == i
    ensures forall i :: 0 <= i < |thumbnails| ==> Title(thumbnails[i]) == "Page " + NatToDecimal(i + 1)
    ensures (forall i :: 0 <= i < |pages| ==> Renders(pages[i])) ==> |thumbnails| == |pages|
  {
    forall i | 0 <= i < |thumbnails|
      ensures thumbnails[i].pageNumber == i
    {
      assert ThumbnailFor(pages, i) == Some(thumbnails[i]);
    }
  }

  /** The pixels of a generated thumbnail are the page's rendered pixels with alpha added. */
  lemma GeneratedPixels(pages: seq<RenderedPage>, thumbnails: seq<PageThumbnail>, i: nat)
    requires GeneratedThumbnails(pages, thumbnails) && i < |thumbnails|
    ensures i < |pages| && Renders(pages[i])
    ensures DropAlpha(thumbnails[i].image.bgra[..|pages[i].pixels| / 3 * 4]) == pages[i].pixels
  {
    assert ThumbnailFor(pages, i) == Some(thumbnails[i]);
    var page := pages[i];
    var buffer := ThumbnailBuffer(page.pixels, page.width, page.height);
    assert buffer[..|page.pixels| / 3 * 4] == AddAlpha(page.pixels);
    DropAlphaAddAlpha(page.pixels);
  }

  /** What a page change does to the renderer: nothing without a renderer or a document, otherwise
      it is re-initialised at the clamped page (a failed initialisation is caught and logged). */
  function RendererAfterPageChange(r: Renderer, hasDocument: bool, pageCount: nat, value: int, initSucceeds: bool): Renderer
  {
    if r.Detached? || !hasDocument || !initSucceeds then r else Attached(Some(PageClamp(value, pageCount)))
  }

  /** The ActivePageIndex setter: the change callback runs only when the value differs. */
  function RendererAfterSet(r: Renderer, hasDocument: bool, pageCount: nat, oldIndex: int, newIndex: int, initSucceeds: bool): Renderer
  {
    if newIndex == oldIndex then r else RendererAfterPageChange(r, hasDocument, pageCount, newIndex, initSucceeds)
  }

  /** A page change never shows a page outside the document. */
  lemma PageChangeShowsValidPage(r: Renderer, pageCount: nat, value: int, initSucceeds: bool)
    requires pageCount > 0
    ensures var after := RendererAfterPageChange(r, true, pageCount, value, initSucceeds);
            after.Attached? && after.shownPage.Some? && after != r ==> 0 <= after.shownPage.value < pageCount
    ensures r.Attached? && initSucceeds && 0 <= value < pageCount ==>
            RendererAfterPageChange(r, true, pageCount, value, initSucceeds) == Attached(Some(value))
  {
    PageClampInRange(value, pageCount);
  }

  class PdfViewerViewModel {
    const documentPath: string
    var document: Option<seq<RenderedPage>>
    var renderer: Renderer
    var disposed: bool
    var thumbnails: seq<PageThumbnail>
    var isBusy: bool
    var activePageIndex: int
    var errorMessage: Option<string>
    var hasError: bool
    var isInitialized: bool

    /** Between operations: a document is held exactly when the view model is initialised, the
        error flag is set exactly when there is a message, and no thumbnail run is in progress. */
    ghost predicate Valid()
      reads this
    {
      && (isInitialized <==> document.Some?)
      && (hasError <==> errorMessage.Some?)
      && !isBusy
    }

    constructor (documentPath: string)
      ensures Valid()
      ensures this.documentPath == documentPath
      ensures document.None? && renderer == Detached && !disposed && thumbnails == []
      ensures activePageIndex == 0 && errorMessage.None? && !hasError && !isInitialized
    {
      this.documentPath := documentPath;
      document := None;
      renderer := Detached;
      disposed := false;
      thumbnails := [];
      isBusy := false;
      activePageIndex := 0;
      errorMessage := None;
      hasError := false;
      isInitialized := false;
    }

    /** The page count of the loaded document, 0 when none is loaded. */
    function PageCount(): (count: nat)
      reads this
      ensures document.None? ==> count == 0
      ensures document.Some? ==> count == |document.value|
    {
      if document.Some? then |document.value| else 0
    }

    /** The effect of loading the document once. A second load changes nothing. A missing file sets
        the error; an open failure sets the error and rethrows; a successful open clears the error
        and generates the thumbnails. */
    twostate predicate DocumentLoaded(fileExists: bool, open: OpenOutcome, initSucceeds: bool, thrown: bool)
      reads this
    {
      && (old(isInitialized) ==> unchanged(this) && !thrown)
      && (!old(isInitialized) && !fileExists ==>
        && !thrown && hasError && errorMessage == Some(DocumentMissingPrefix + documentPath)
        && !isInitialized && document == old(document) && renderer == old(renderer) && disposed == old(disposed)
        && thumbnails == old(thumbnails) && activePageIndex == old(activePageIndex))
      && (!old(isInitialized) && fileExists && open.OpenFailed? ==>
        && thrown && hasError && errorMessage == Some(LoadFailurePrefix + open.reason)
        && !isInitialized && document == old(document) && renderer == old(renderer) && disposed == old(disposed)
        && thumbnails == old(thumbnails) && activePageIndex == old(activePageIndex))
      && (!old(isInitialized) && fileExists && open.Opened? ==>
        && !thrown && isInitialized && document == Some(open.pages) && !hasError && errorMessage.None?
        && disposed == old(disposed)
        && GeneratedThumbnails(open.pages, thumbnails)
        && activePageIndex == (if 0 < |thumbnails| == |open.pages| then 0 else old(activePageIndex))
        && renderer == RendererAfterSet(old(renderer), true, |open.pages|, old(activePageIndex), activePageIndex, initSucceeds))
    }

    /** Activate loads the document if that has not happened yet. */
    method Activate(fileExists: bool, open: OpenOutcome, initSucceeds: bool) returns (thrown: bool)
      requires Valid()
      modifies this
      ensures Valid()
      ensures DocumentLoaded(fileExists, open, initSucceeds, thrown)
      ensures thrown <==> !old(isInitialized) && fileExists && open.OpenFailed?
    {
      thrown := EnsureDocumentLoaded(fileExists, open, initSucceeds);
    }

    /** EnsureDocumentLoaded: loads the document once, with the effect DocumentLoaded describes. */
    method EnsureDocumentLoaded(fileExists: bool, open: OpenOutcome, initSucceeds: bool) returns (thrown: bool)
      requires Valid()
      modifies this
      ensures Valid()
      ensures DocumentLoaded(fileExists, open, initSucceeds, thrown)
    {
      thrown := false;
      if isInitialized || !fileExists {
        if !isInitialized {
          errorMessage := Some(DocumentMissingPrefix + documentPath);
          hasError := true;
        }
        return;
      }
      match open
      case OpenFailed(reason) =>
        errorMessage := Some(LoadFailurePrefix + reason);
        hasError := true;
        thrown := true;
      case Opened(pages) =>
        document := Some(pages);
        isInitialized := true;
        hasError := false;
        errorMessage := None;
        // the thumbnail task is fire-and-forget; its failure is only logged
        var _ := GenerateThumbnails(initSucceeds);
    }

    /** Attaches the page renderer. Before initialisation this only records the renderer and
        sets the warning; otherwise the renderer is initialised at ActivePageIndex and covered,
        and a failure there (including a null renderer) sets the error and rethrows. */
    method AttachRenderer(present: bool, initSucceeds: bool, reason: string) returns (thrown: bool)
      requires Valid()
      modifies this`renderer, this`errorMessage, this`hasError
      ensures Valid()
      ensures !isInitialized ==>
        && !thrown && renderer == (if present then Attached(None) else Detached)
        && hasError && errorMessage == Some(AttachWarning)
      ensures isInitialized && present && initSucceeds ==>
        !thrown && renderer == Attached(Some(activePageIndex)) && !hasError && errorMessage.None?
      ensures isInitialized && !(present && initSucceeds) ==>
        && thrown && renderer == (if present then Attached(None) else Detached)
        && hasError && errorMessage == Some(AttachFailurePrefix + reason)
    {
      thrown := false;
      renderer := if present then Attached(None) else Detached;
      if !isInitialized || document.None? {
        errorMessage := Some(AttachWarning);
        hasError := true;
        return;
      }
      if !present || !initSucceeds {
        errorMessage := Some(AttachFailurePrefix + reason);
        hasError := true;
        thrown := true;
        return;
      }
      renderer := Attached(Some(activePageIndex));
      hasError := false;
      errorMessage := None;
    }

    /** The change callback of ActivePageIndex. */
    method OnActivePageIndexChanged(value: int, initSucceeds: bool)
      modifies this`renderer
      ensures renderer == RendererAfterPageChange(old(renderer), document.Some?, PageCount(), value, initSucceeds)
    {
      if renderer.Detached? || document.None? {
        return;
      }
      if initSucceeds {
        renderer := Attached(Some(PageClamp(value, PageCount())));
      }
    }

    /** The generated ActivePageIndex setter: assign, then call back only on a change. */
    method SetActivePageIndex(value: int, initSucceeds: bool)
      modifies this`activePageIndex, this`renderer
      ensures activePageIndex == value
      ensures renderer == RendererAfterSet(old(renderer), document.Some?, PageCount(), old(activePageIndex), value, initSucceeds)
    {
      if activePageIndex != value {
        activePageIndex := value;
        OnActivePageIndexChanged(value, initSucceeds);
      }
    }

    /** CreateThumbnail: the thumbnail of one page, or None where the source throws. */
    method CreateThumbnail(pageNumber: int) returns (thumbnail: Option<PageThumbnail>)
      ensures document.None? ==> thumbnail.None?
      ensures document.Some? ==> thumbnail == ThumbnailFor(document.value, pageNumber)
    {
      if document.None? || !(0 <= pageNumber < |document.value|) {
        return None;
      }
      var page := document.value[pageNumber];
      if page.RenderThrew? {
        return None;
      }
      var bgra := RepackBgrToBgra(page.pixels, page.width, page.height);
      match bgra
      case None =>
        thumbnail := None;
      case Some(data) =>
        thumbnail := Some(PageThumbnail(pageNumber, Bitmap(page.width, page.height, data[..])));
    }

    /** Clears the list, then appends one thumbnail per page in index order; a page that throws
        ends the run (faulted). Only a complete run over a non-empty document moves the active
        page to 0. */
    method GenerateThumbnails(initSucceeds: bool) returns (faulted: bool)
      requires Valid()
      modifies this`thumbnails, this`isBusy, this`activePageIndex, this`renderer
      ensures Valid()
      ensures document.None? ==>
        !faulted && thumbnails == old(thumbnails) && activePageIndex == old(activePageIndex) && renderer == old(renderer)
      ensures document.Some? ==> GeneratedThumbnails(document.value, thumbnails)
      ensures document.Some? ==> (faulted <==> |thumbnails| < PageCount())
      ensures document.Some? ==>
        && activePageIndex == (if !faulted && PageCount() > 0 then 0 else old(activePageIndex))
        && renderer == RendererAfterSet(old(renderer), true, PageCount(), old(activePageIndex), activePageIndex, initSucceeds)
    {
      faulted := false;
      if document.None? {
        return;
      }
      isBusy := true;
      var pageCount := PageCount();
      ghost var pages := document.value;
      thumbnails := [];
      var pageIndex := 0;
      while pageIndex < pageCount
        invariant 0 <= pageIndex <= pageCount
        invariant document == Some(pages) && pageCount == |pages|
        invariant activePageIndex == old(activePageIndex) && renderer == old(renderer)
        invariant !faulted && pageIndex <= FirstFailureFrom(pages, 0)
        invariant |thumbnails| == pageIndex
        invariant forall i :: 0 <= i < pageIndex ==> ThumbnailFor(pages, i) == Some(thumbnails[i])
      {
        var thumbnail := CreateThumbnail(pageIndex);
        if thumbnail.None? {
          assert pageIndex == FirstFailureFrom(pages, 0);
          faulted := true;
          break;
        }
        thumbnails := thumbnails + [thumbnail.value];
        pageIndex := pageIndex + 1;
      }
      if !faulted && pageCount > 0 {
        SetActivePageIndex(0, initSucceeds);
      }
      isBusy := false;
    }

    /** Disposes once: the renderer's resources are released and the reference dropped; later
        calls do nothing. */
    method Dispose()
      modifies this`disposed, this`renderer
      ensures disposed
      ensures old(disposed) ==> renderer == old(renderer)
      ensures !old(disposed) ==> renderer == Detached
    {
      if disposed {
        return;
      }
      disposed := true;
      renderer := Detached;
    }
  }
}
