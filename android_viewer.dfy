/** The Android PDF viewer's view model (AndroidPdfViewModel.cs): page navigation over a
    document opened with the OS renderer, a clamped zoom, a thumbnail list filled once per page,
    and the ownership of the bitmaps it shows.

    The OS renderer is an oracle: opening yields a page count, null or an exception; rendering a
    page and converting it yields a new bitmap or an exception. Avalonia bitmaps are identified by
    number and every Dispose call on one is logged, in order, in the ghost field `disposedImages`;
    the native Android bitmap released after each conversion is not modelled. */
module AndroidViewer {
  import opened Common

  /** The identity of an Avalonia bitmap. */
  type Image = nat

  /** One render of a page followed by ToAvaloniaBitmap: a new bitmap, or the exception's text. */
  datatype RenderOutcome = Rendered(image: Image) | RenderFailed(error: string)

  /** AndroidPdfDocument.TryOpen: a document with its page count, null, or an exception. */
  datatype OpenOutcome = Opened(pageCount: nat) | NotOpened | OpenThrew(error: string)

  /** The nested class PageThumbnail(PageIndex, Image). */
  datatype PageThumbnail = PageThumbnail(pageIndex: int, image: Image)

  /** The caption number of a thumbnail is one-based. */
  function DisplayNumber(t: PageThumbnail): (n: int)
    ensures n - 1 == t.pageIndex
  {
    t.pageIndex + 1
  }

  const MinZoom: real := 0.75
  const MaxZoom: real := 2.5
  const InitialZoom: real := 1.25
  const ThumbnailZoom: real := 0.3
  const FileNotFoundMessage := "PDF file not found on device"
  const UnableToOpenMessage := "Unable to open PDF on Android"

  /** char.IsWhiteSpace: the Unicode space, line and paragraph separators, U+0009..U+000D and U+0085. */
  predicate IsWhiteSpace(c: char)
  {
    || c == ' ' || ('\t' <= c <= '\r') || c == '\U{0085}' || c == '\U{00A0}' || c == '\U{1680}'
    || ('\U{2000}' <= c <= '\U{200A}') || c == '\U{2028}' || c == '\U{2029}' || c == '\U{202F}'
    || c == '\U{205F}' || c == '\U{3000}'
  }

  /** string.IsNullOrWhiteSpace. */
  function IsNullOrWhiteSpace(s: Option<string>): (r: bool)
    ensures r <==> s.None? || forall i :: 0 <= i < |s.value| ==> IsWhiteSpace(s.value[i])
    decreases if s.Some? then |s.value| else 0
  {
    match s
    case None => true
    case Some(text) =>
      if |text| == 0 then true
      else IsWhiteSpace(text[0]) && IsNullOrWhiteSpace(Some(text[1..]))
  }

  /** HasError: there is a message with at least one character that is not white space. */
  function HasErrorText(errorMessage: Option<string>): (r: bool)
    ensures r <==> errorMessage.Some? && exists i :: 0 <= i < |errorMessage.value| && !IsWhiteSpace(errorMessage.value[i])
  {
    !IsNullOrWhiteSpace(errorMessage)
  }

  lemma FixedMessagesAreErrors()
    ensures HasErrorText(Some(FileNotFoundMessage)) && HasErrorText(Some(UnableToOpenMessage))
    ensures !HasErrorText(None) && !HasErrorText(Some("")) && !HasErrorText(Some(" \t"))
  {
    assert !IsWhiteSpace(FileNotFoundMessage[0]);
    assert !IsWhiteSpace(UnableToOpenMessage[0]);
  }

  /** CanMoveTo. */
  function CanMoveTo(index: int, pageCount: int): (r: bool)
    ensures r ==> 0 <= index < pageCount
  {
    index >= 0 && index < pageCount
  }

  /** The guards of the Next and Previous commands, for any current index the view model can hold. */
  lemma NavigationGuards(currentPageIndex: int, pageCount: int)
    requires 0 <= currentPageIndex && (currentPageIndex == 0 || currentPageIndex < pageCount)
    ensures CanMoveTo(currentPageIndex + 1, pageCount) <==> currentPageIndex + 1 < pageCount
    ensures CanMoveTo(currentPageIndex - 1, pageCount) <==> currentPageIndex >= 1
    ensures forall i :: CanMoveTo(i, pageCount) <==> 0 <= i < pageCount
  {
  }

  /** Thumbnails of pages 0 .. count-1 from one render each. */
  function ThumbnailRun(render: int -> RenderOutcome, count: nat): (run: seq<PageThumbnail>)
    requires forall i :: 0 <= i < count ==> render(i).Rendered?
    ensures |run| == count
    ensures forall i :: 0 <= i < count ==> run[i] == PageThumbnail(i, render(i).image)
  {
    if count == 0 then [] else ThumbnailRun(render, count - 1) + [PageThumbnail(count - 1, render(count - 1).image)]
  }

  /** The first page at or after `from`, below `count`, whose thumbnail render fails, or count. */
  function FirstFailedRender(render: int -> RenderOutcome, from: nat, count: nat): (r: nat)
    requires from <= count
    ensures from <= r <= count
    ensures forall i :: from <= i < r ==> render(i).Rendered?
    ensures r < count ==> render(r).RenderFailed?
    decreases count - from
  {
    if from == count || render(from).RenderFailed? then from else FirstFailedRender(render, from + 1, count)
  }

  /** A thumbnail run lists pages 0, 1, 2, ... each captioned with its one-based number. */
  lemma ThumbnailRunNumbering(render: int -> RenderOutcome, count: nat)
    requires forall i :: 0 <= i < count ==> render(i).Rendered?
    ensures forall i :: 0 <= i < count ==>
      ThumbnailRun(render, count)[i].pageIndex == i && DisplayNumber(ThumbnailRun(render, count)[i]) == i + 1
  {
  }

  /** The images of a thumbnail list, in list order. */
  function ImagesOf(thumbnails: seq<PageThumbnail>): (images: seq<Image>)
    ensures |images| == |thumbnails|
    ensures forall i :: 0 <= i < |thumbnails| ==> images[i] == thumbnails[i].image
  {
    if |thumbnails| == 0 then [] else ImagesOf(thumbnails[..|thumbnails| - 1]) + [thumbnails[|thumbnails| - 1].image]
  }

  /** The bitmaps the CurrentPageImage setter disposes: the previous one on a change, the one
      passed in when it equals the current one. */
  function SetterDisposals(previous: Option<Image>, newImage: Option<Image>): (disposals: seq<Image>)
    ensures |disposals| <= 1
  {
    var disposed := if newImage != previous then previous else newImage;
    if disposed.Some? then [disposed.value] else []
  }

  /** A change of image never disposes the image now shown, and disposes the previous one if any;
      only passing the shown image again disposes it. */
  lemma SetterKeepsShownImage(previous: Option<Image>, newImage: Option<Image>)
    ensures newImage != previous && newImage.Some? ==> newImage.value !in SetterDisposals(previous, newImage)
    ensures newImage != previous && previous.Some? ==> SetterDisposals(previous, newImage) == [previous.value]
    ensures newImage == previous && newImage.Some? ==> SetterDisposals(previous, newImage) == [newImage.value]
    ensures newImage.None? && previous.None? ==> SetterDisposals(previous, newImage) == []
  {
  }

  class AndroidPdfViewModel {
    const filePath: string
    var document: Option<nat>
    var isActivated: bool
    var currentPageImage: Option<Image>
    var isBusy: bool
    var pageCount: nat
    var currentPageIndex: int
    var errorMessage: Option<string>
    var zoom: real
    var thumbnails: seq<PageThumbnail>
    var isThumbnailMode: bool
    var isLoadingThumbnails: bool
    ghost var disposedImages: seq<Image>

    /** Between operations: the zoom is inside its clamp range, the current index is 0 or a valid
        page, PageCount is the open document's, and nothing happens before activation. */
    ghost predicate Valid()
      reads this
    {
      && MinZoom <= zoom <= MaxZoom
      && 0 <= currentPageIndex && (currentPageIndex == 0 || currentPageIndex < pageCount)
      && (document.Some? ==> pageCount == document.value)
      && (!isActivated ==> document.None? && pageCount == 0 && currentPageIndex == 0 && thumbnails == [])
      && !isBusy && !isLoadingThumbnails
    }

    constructor (filePath: string)
      ensures Valid()
      ensures this.filePath == filePath && document.None? && !isActivated && currentPageImage.None?
      ensures pageCount == 0 && currentPageIndex == 0 && errorMessage.None? && zoom == InitialZoom
      ensures thumbnails == [] && !isThumbnailMode && disposedImages == []
    {
      this.filePath := filePath;
      document := None;
      isActivated := false;
      currentPageImage := None;
      isBusy := false;
      pageCount := 0;
      currentPageIndex := 0;
      errorMessage := None;
      zoom := InitialZoom;
      thumbnails := [];
      isThumbnailMode := false;
      isLoadingThumbnails := false;
      disposedImages := [];
    }

    /** The one-based number of the shown page: between 1 and the page count (1 when there is no
        page to show). */
    function DisplayPageNumber(): (n: int)
      reads this
      ensures n - 1 == currentPageIndex
      ensures Valid() ==> 1 <= n <= Max(1, pageCount)
    {
      currentPageIndex + 1
    }

    /** HasError: the message holds a character that is not white space. */
    function HasError(): (r: bool)
      reads this
      ensures r <==> errorMessage.Some? && exists i :: 0 <= i < |errorMessage.value| && !IsWhiteSpace(errorMessage.value[i])
    {
      HasErrorText(errorMessage)
    }

    /** HasThumbnails: the list is not empty, which never happens before activation. */
    function HasThumbnails(): (r: bool)
      reads this
      ensures r <==> thumbnails != []
      ensures Valid() && !isActivated ==> !r
    {
      |thumbnails| > 0
    }


    /** The effect of LoadPageAsync(targetIndex) on the four fields it may change: nothing without a
        document; otherwise the request is clamped into the document, and a successful render
        shows the new bitmap at the resolved index, while a failure only sets the error message. */
    twostate predicate PageLoaded(targetIndex: int, outcome: RenderOutcome)
      reads this
    {
      if document.None? || outcome.RenderFailed? then
        && currentPageIndex == old(currentPageIndex) && currentPageImage == old(currentPageImage)
        && disposedImages == old(disposedImages)
        && errorMessage == (if document.None? then old(errorMessage) else Some(outcome.error))
      else
        && currentPageIndex == PageClamp(targetIndex, pageCount)
        && currentPageImage == Some(outcome.image)
        && disposedImages == old(disposedImages) + SetterDisposals(old(currentPageImage), Some(outcome.image))
        && errorMessage == old(errorMessage)
    }

    /** The CurrentPageImage setter. */
    method SetCurrentPage(newImage: Option<Image>)
      modifies this`currentPageImage, this`disposedImages
      ensures currentPageImage == newImage
      ensures disposedImages == old(disposedImages) + SetterDisposals(old(currentPageImage), newImage)
    {
      var previous := currentPageImage;
      if newImage != currentPageImage {
        currentPageImage := newImage;
        if previous.Some? {
          disposedImages := disposedImages + [previous.value];
        }
      } else if newImage.Some? {
        disposedImages := disposedImages + [newImage.value];
      }
    }

    /** LoadPageAsync, with RenderAndroidBitmap's clamp of the requested index. */
    method LoadPage(targetIndex: int, outcome: RenderOutcome)
      requires Valid()
      modifies this`isBusy, this`currentPageImage, this`disposedImages, this`currentPageIndex, this`errorMessage
      ensures Valid()
      ensures PageLoaded(targetIndex, outcome)
      ensures document.Some? && outcome.Rendered? && pageCount > 0 ==> 0 <= currentPageIndex < pageCount
    {
      if document.None? {
        return;
      }
      isBusy := true;
      var resolvedIndex := PageClamp(targetIndex, document.value);
      PageClampInRange(targetIndex, document.value);
      match outcome {
        case RenderFailed(error) =>
          errorMessage := Some(error);
        case Rendered(image) =>
          SetCurrentPage(Some(image));
          currentPageIndex := resolvedIndex;
      }
      isBusy := false;
    }

    /** The Next command: load the page after the current one. */
    method NextPage(outcome: RenderOutcome)
      requires Valid()
      modifies this`isBusy, this`currentPageImage, this`disposedImages, this`currentPageIndex, this`errorMessage
      ensures Valid()
      ensures PageLoaded(old(currentPageIndex) + 1, outcome)
      ensures document.Some? && outcome.Rendered? && CanMoveTo(old(currentPageIndex) + 1, pageCount) ==>
        currentPageIndex == old(currentPageIndex) + 1 && DisplayPageNumber() == old(DisplayPageNumber()) + 1
    {
      LoadPage(currentPageIndex + 1, outcome);
    }

    /** The Previous command: load the page before the current one. */
    method PreviousPage(outcome: RenderOutcome)
      requires Valid()
      modifies this`isBusy, this`currentPageImage, this`disposedImages, this`currentPageIndex, this`errorMessage
      ensures Valid()
      ensures PageLoaded(old(currentPageIndex) - 1, outcome)
      ensures document.Some? && outcome.Rendered? && CanMoveTo(old(currentPageIndex) - 1, pageCount) ==>
        currentPageIndex == old(currentPageIndex) - 1 && DisplayPageNumber() == old(DisplayPageNumber()) - 1
    {
      LoadPage(currentPageIndex - 1, outcome);
    }

    /** The SelectPage command: load the page, then leave thumbnail mode (the setter does nothing
        else for false). */
    method SelectPage(pageIndex: int, outcome: RenderOutcome)
      requires Valid()
      modifies this`isBusy, this`currentPageImage, this`disposedImages, this`currentPageIndex, this`errorMessage,
               this`isThumbnailMode
      ensures Valid()
      ensures PageLoaded(pageIndex, outcome) && !isThumbnailMode
    {
      LoadPage(pageIndex, outcome);
      isThumbnailMode := false;
    }

    /** The Zoom setter: store the value clamped to [0.75, 2.5]; reload the current page only when
        the stored value changes. */
    method SetZoom(value: real, outcome: RenderOutcome) returns (reloaded: bool)
      requires Valid()
      modifies this`zoom, this`isBusy, this`currentPageImage, this`disposedImages, this`currentPageIndex, this`errorMessage
      ensures Valid()
      ensures zoom == ClampReal(value, MinZoom, MaxZoom)
      ensures reloaded <==> zoom != old(zoom)
      ensures reloaded ==> PageLoaded(old(currentPageIndex), outcome)
      ensures !reloaded ==> unchanged(this)
    {
      var clamped := ClampReal(value, MinZoom, MaxZoom);
      reloaded := clamped != zoom;
      if reloaded {
        zoom := clamped;
        LoadPage(currentPageIndex, outcome);
      }
    }

    /** The effect of LoadDocumentAsync on a view model that has no document yet: a missing file,
        a null document and an exception each set their message and leave the rest alone; an
        opened document sets PageCount, empties the thumbnail list and loads page 0. */
    twostate predicate DocumentLoaded(fileExists: bool, open: OpenOutcome, outcome: RenderOutcome)
      reads this
    {
      && zoom == old(zoom) && isThumbnailMode == old(isThumbnailMode)
      && (!fileExists ==>
        && errorMessage == Some(FileNotFoundMessage) && HasError()
        && document.None? && pageCount == old(pageCount) && currentPageIndex == old(currentPageIndex)
        && currentPageImage == old(currentPageImage)
        && thumbnails == old(thumbnails) && disposedImages == old(disposedImages))
      && (fileExists && open.NotOpened? ==>
        && errorMessage == Some(UnableToOpenMessage) && HasError()
        && document.None? && pageCount == old(pageCount) && currentPageIndex == old(currentPageIndex)
        && currentPageImage == old(currentPageImage)
        && thumbnails == old(thumbnails) && disposedImages == old(disposedImages))
      && (fileExists && open.OpenThrew? ==>
        && errorMessage == Some(open.error)
        && document.None? && pageCount == old(pageCount) && currentPageIndex == old(currentPageIndex)
        && currentPageImage == old(currentPageImage)
        && thumbnails == old(thumbnails) && disposedImages == old(disposedImages))
      && (fileExists && open.Opened? ==> DocumentOpened(open.pageCount, outcome))
    }

    /** The opened-document part of LoadDocumentAsync: PageCount is set, the thumbnail list is
        emptied and page 0 is loaded. */
    twostate predicate DocumentOpened(count: nat, outcome: RenderOutcome)
      reads this
    {
      && document == Some(count) && pageCount == count && thumbnails == [] && currentPageIndex == 0
      && (outcome.Rendered? ==> currentPageImage == Some(outcome.image) && errorMessage.None? && !HasError())
      && (outcome.RenderFailed? ==> currentPageImage == old(currentPageImage) && errorMessage == Some(outcome.error))
      && disposedImages == old(disposedImages) + ImagesOf(old(thumbnails))
                           + (if outcome.Rendered? then SetterDisposals(old(currentPageImage), Some(outcome.image)) else [])
    }

    /** The document opened with `count` pages: reset the thumbnails, set PageCount, load page 0. */
    method ShowDocument(count: nat, outcome: RenderOutcome)
      requires Valid() && isActivated && document.None? && pageCount == 0 && currentPageIndex == 0
      requires errorMessage.None?
      modifies this`errorMessage, this`document, this`thumbnails,
               this`disposedImages, this`pageCount, this`currentPageImage, this`currentPageIndex, this`isBusy
      ensures Valid()
      ensures DocumentOpened(count, outcome)
    {
      document := Some(count);
      ResetThumbnails();
      pageCount := count;
      LoadPage(0, outcome);
    }

    /** LoadDocumentAsync, called once, by the first Activate, before any document is open. */
    method LoadDocument(fileExists: bool, open: OpenOutcome, outcome: RenderOutcome)
      requires Valid() && isActivated && document.None? && pageCount == 0 && currentPageIndex == 0
      modifies this`isBusy, this`errorMessage, this`document, this`thumbnails,
               this`disposedImages, this`pageCount, this`currentPageImage, this`currentPageIndex
      ensures Valid()
      ensures DocumentLoaded(fileExists, open, outcome)
    {
      FixedMessagesAreErrors();
      if !fileExists {
        errorMessage := Some(FileNotFoundMessage);
        return;
      }
      isBusy := true;
      errorMessage := None;
      match open {
        case OpenThrew(error) =>
          errorMessage := Some(error);
        case NotOpened =>
          document := None;
          errorMessage := Some(UnableToOpenMessage);
        case Opened(count) =>
          // LoadPageAsync(0) raises and lowers the busy flag itself
          isBusy := false;
          ShowDocument(count, outcome);
      }
      isBusy := false;
    }

    /** Activate: the first call marks the view model activated and loads the document; later
        calls only reload the current page, and only when a document is open and no image is
        shown. */
    method Activate(fileExists: bool, open: OpenOutcome, outcome: RenderOutcome)
      requires Valid()
      modifies this`isActivated, this`isBusy, this`errorMessage, this`document, this`thumbnails,
               this`disposedImages, this`pageCount, this`currentPageImage, this`currentPageIndex
      ensures Valid()
      ensures isActivated
      ensures zoom == old(zoom) && isThumbnailMode == old(isThumbnailMode)
      ensures old(isActivated) && !(old(document).Some? && old(currentPageImage).None?) ==> unchanged(this)
      ensures old(isActivated) && old(document).Some? && old(currentPageImage).None? ==>
        && PageLoaded(old(currentPageIndex), outcome)
        && document == old(document) && pageCount == old(pageCount) && thumbnails == old(thumbnails)
      ensures !old(isActivated) ==> DocumentLoaded(fileExists, open, outcome) && old(thumbnails) == []
    {
      if isActivated {
        if document.Some? && currentPageImage.None? {
          LoadPage(currentPageIndex, outcome);
        }
        return;
      }
      isActivated := true;
      LoadDocument(fileExists, open, outcome);
    }

    /** EnsureThumbnailsAsync: nothing without a document or when thumbnails exist; otherwise one
        thumbnail per page in index order until a render throws. `render(i)` answers the render of
        page i at ThumbnailZoom followed by its conversion to an Avalonia bitmap. */
    method EnsureThumbnails(render: int -> RenderOutcome) returns (faulted: bool)
      requires Valid()
      modifies this`thumbnails, this`isLoadingThumbnails
      ensures Valid()
      ensures document.None? || old(thumbnails) != [] ==> thumbnails == old(thumbnails) && !faulted
      ensures document.Some? && old(thumbnails) == [] ==>
        var count := FirstFailedRender(render, 0, document.value);
        && thumbnails == ThumbnailRun(render, count)
        && (faulted <==> count < document.value)
      ensures document.Some? && old(thumbnails) == [] ==>
        (HasThumbnails() <==> document.value > 0 && render(0).Rendered?)
    {
      faulted := false;
      if document.None? || HasThumbnails() {
        return;
      }
      isLoadingThumbnails := true;
      var count := document.value;
      var i := 0;
      while i < count
        invariant 0 <= i <= count && document == Some(count)
        invariant i <= FirstFailedRender(render, 0, count)
        invariant thumbnails == ThumbnailRun(render, i)
      {
        var resolvedIndex := PageClamp(i, count);
        PageClampInRange(i, count);
        var outcome := render(resolvedIndex);
        if outcome.RenderFailed? {
          assert i == FirstFailedRender(render, 0, count);
          faulted := true;
          break;
        }
        thumbnails := thumbnails + [PageThumbnail(resolvedIndex, outcome.image)];
        i := i + 1;
      }
      isLoadingThumbnails := false;
    }

    /** The IsThumbnailMode setter: switching it on makes sure the thumbnails exist. */
    method SetThumbnailMode(value: bool, render: int -> RenderOutcome) returns (faulted: bool)
      requires Valid()
      modifies this`isThumbnailMode, this`thumbnails, this`isLoadingThumbnails
      ensures Valid()
      ensures isThumbnailMode == value
      ensures !(value && !old(isThumbnailMode)) ==> thumbnails == old(thumbnails) && !faulted
      ensures value && !old(isThumbnailMode) && document.Some? && old(thumbnails) == [] ==>
        var count := FirstFailedRender(render, 0, document.value);
        thumbnails == ThumbnailRun(render, count) && (faulted <==> count < document.value)
      ensures value && !old(isThumbnailMode) && (document.None? || old(thumbnails) != []) ==>
        thumbnails == old(thumbnails) && !faulted
    {
      faulted := false;
      if isThumbnailMode != value {
        isThumbnailMode := value;
        if value {
          faulted := EnsureThumbnails(render);
        }
      }
    }

    /** ResetThumbnails: dispose every thumbnail in list order, then clear the list. */
    method ResetThumbnails()
      modifies this`thumbnails, this`disposedImages
      ensures thumbnails == [] && !HasThumbnails()
      ensures disposedImages == old(disposedImages) + ImagesOf(old(thumbnails))
    {
      if |thumbnails| == 0 {
        return;
      }
      var i := 0;
      while i < |thumbnails|
        invariant 0 <= i <= |thumbnails| && thumbnails == old(thumbnails)
        invariant disposedImages == old(disposedImages) + ImagesOf(thumbnails[..i])
      {
        assert thumbnails[..i + 1][..i] == thumbnails[..i];
        disposedImages := disposedImages + [thumbnails[i].image];
        i := i + 1;
      }
      assert thumbnails[..i] == thumbnails;
      thumbnails := [];
    }

    /** Dispose: the shown bitmap, the document and every thumbnail are released. */
    method Dispose()
      requires Valid()
      modifies this`currentPageImage, this`document, this`thumbnails, this`disposedImages
      ensures Valid()
      ensures currentPageImage.None? && document.None? && thumbnails == [] && !HasThumbnails()
      ensures disposedImages == old(disposedImages)
                                + (if old(currentPageImage).Some? then [old(currentPageImage).value] else [])
                                + ImagesOf(old(thumbnails))
    {
      if currentPageImage.Some? {
        disposedImages := disposedImages + [currentPageImage.value];
      }
      currentPageImage := None;
      document := None;
      ResetThumbnails();
    }
  }
}
