# Verified model of the Avalonia PDF viewer's view-model logic

The application combines a desktop, Android and iOS PDF viewer with a map panel. Most of it is
user-interface plumbing. This project models the sequential logic inside four pieces of it and
proves properties of that logic in Dafny:

- **Desktop viewer** (`PdfViewerViewModel`). It loads the document once and keeps an error flag
  and an error message. It generates one thumbnail per page. To do that it repacks the engine's
  3-byte B,G,R pixels into 4-byte B,G,R,A pixels with an opaque alpha byte. It also
  re-initialises the page renderer, at a clamped page, when the active page changes, and it
  disposes itself once.
- **Android viewer** (`AndroidPdfViewModel`). It navigates pages: it clamps requested pages,
  guards Next and Previous, and clamps the zoom to [0.75, 2.5]. It fills a thumbnail list once
  per page and resets it by disposing every thumbnail. It decides which bitmap to dispose when
  the shown page image is replaced.
- **Navigator** (`AppViewModel`). It switches between the home view and the PDF view. It creates
  the embedded viewer lazily, at most once, and reuses it. When the platform presenter declines,
  it presents the file externally instead.
- **Bool-to-brush converter**. It splits the parameter on `;`, accepts exactly two segments,
  picks one by the bool, parses it, and falls back to `#1d4ed8` otherwise.

Files: `common.dfy` (bytes, Option/Result, Math.Clamp, decimal text), `pixel_repack.dfy`,
`desktop_viewer.dfy`, `android_viewer.dfy`, `app_navigation.dfy`, `bool_to_brush.dfy`.

Foreign calls are parameters of the model:

- File.Exists is a `bool` parameter.
- Opening a document is an outcome parameter. For MuPDF it gives the pages or a failure. For
  Android it gives a page count, null, or an exception.
- One render plus bitmap conversion is an outcome parameter: a bitmap, or the exception thrown by
  the render or the bitmap's creation. On the desktop each page's outcome is part of the opened
  document. The Android thumbnail run takes a function from page index to outcome.
- Whether the activation of a created PDF view model throws is a `bool` parameter of the
  navigator.
- The presenter's `TryCreateEmbeddedViewModel` answer is a parameter.
- `Color.TryParse` is the function parameter `tryParse`.

An exception that the source throws is a returned `thrown`/`faulted` flag or a `None` result.
State written before the throw is kept. The Android view model's Avalonia bitmaps are
identified by number, and every `Dispose` call on an Avalonia bitmap is logged, in order, in
the ghost field `disposedImages`. Each operation runs to
completion before the next one starts.

## Model

| member | source | states |
|---|---|---|
| Common.Clamp | AvaloniaHello/AvaloniaHello.Android/ViewModels/AndroidPdfViewModel.cs:68 | Math.Clamp's result lies in [min, max] |
| Common.ClampReal | AvaloniaHello/AvaloniaHello.Android/ViewModels/AndroidPdfViewModel.cs:68 | the real-valued clamp used for Zoom lies in [min, max] |
| Common.ClampIsNearest | AvaloniaHello/AvaloniaHello/ViewModels/PdfViewerViewModel.cs:275 | the clamp keeps an in-range value, and no point of [min, max] is nearer to the value than the clamp's result |
| Common.PageClamp | AvaloniaHello/AvaloniaHello.Android/ViewModels/AndroidPdfViewModel.cs:266 | clamp(index, 0, max(0, count-1)) is never negative |
| Common.PageClampInRange | AvaloniaHello/AvaloniaHello.Android/ViewModels/AndroidPdfViewModel.cs:266 | the resolved page is a valid index when the document has pages and 0 otherwise; a valid request is kept, a negative one goes to 0, one past the end goes to the last page |
| Common.NatToDecimal | AvaloniaHello/AvaloniaHello/ViewModels/PdfViewerViewModel.cs:308 | the numeral is non-empty, all digits, and has no leading zero except for 0 |
| Common.DecimalRoundTrip | AvaloniaHello/AvaloniaHello/ViewModels/PdfViewerViewModel.cs:308 | reading the numeral back gives the number |
| Common.IntToDecimal | AvaloniaHello/AvaloniaHello/ViewModels/PdfViewerViewModel.cs:308 | the interpolated text of an int is non-empty |
| PixelRepack.AddAlpha | AvaloniaHello/AvaloniaHello/ViewModels/PdfViewerViewModel.cs:246-251 | the reference repack turns n triples into 4n bytes |
| PixelRepack.DropAlpha | AvaloniaHello/AvaloniaHello/ViewModels/PdfViewerViewModel.cs:246-250 | the inverse of the repack keeps 3 of every 4 bytes |
| PixelRepack.ThumbnailBuffer | AvaloniaHello/AvaloniaHello/ViewModels/PdfViewerViewModel.cs:243 | the BGRA buffer has length width*height*4 |
| PixelRepack.AddAlphaAt | AvaloniaHello/AvaloniaHello/ViewModels/PdfViewerViewModel.cs:246-251 | output byte p is the alpha 255 when p % 4 == 3, and otherwise channel p % 4 of input pixel p / 4 |
| PixelRepack.ThumbnailBufferPixel | AvaloniaHello/AvaloniaHello/ViewModels/PdfViewerViewModel.cs:243-252 | for every visited pixel k, bytes 4k, 4k+1, 4k+2 equal input bytes 3k, 3k+1, 3k+2 in B,G,R order and byte 4k+3 is 255; every byte j from 4*(len/3) on stays 0 |
| PixelRepack.DropAlphaAddAlpha | AvaloniaHello/AvaloniaHello/ViewModels/PdfViewerViewModel.cs:246-250 | dropping the alpha bytes of the repacked pixels gives back the rendered bytes |
| PixelRepack.CopyPixels | AvaloniaHello/AvaloniaHello/ViewModels/PdfViewerViewModel.cs:246-252 | over a zeroed buffer, the two-index loop throws exactly when the input has a partial triple or more triples than the buffer has 4-byte pixels; otherwise the buffer is the reference repack followed by its untouched zeros |
| PixelRepack.RepackBgrToBgra | AvaloniaHello/AvaloniaHello/ViewModels/PdfViewerViewModel.cs:242-252 | the repack throws exactly when the input length is not a multiple of 3 or exceeds 3*width*height; otherwise the new array has width*height*4 bytes and equals the reference buffer |
| DesktopViewer.Title | AvaloniaHello/AvaloniaHello/ViewModels/PdfViewerViewModel.cs:308 | the caption starts with "Page " |
| DesktopViewer.TitleNumbersFromOne | AvaloniaHello/AvaloniaHello/ViewModels/PdfViewerViewModel.cs:308 | after "Page " the caption is a numeral whose value is PageNumber + 1 |
| DesktopViewer.ThumbnailFor | AvaloniaHello/AvaloniaHello/ViewModels/PdfViewerViewModel.cs:218-259 | a page's thumbnail exists iff the index is in range, the render and the bitmap creation do not throw, and the pixels fit the bitmap; it carries that page number and the rounded size |
| DesktopViewer.FirstFailureFrom | AvaloniaHello/AvaloniaHello/ViewModels/PdfViewerViewModel.cs:187-202 | the index where the generation loop stops: every page before it renders, and the page at it throws unless it is the page count |
| DesktopViewer.GeneratedInPageOrder | AvaloniaHello/AvaloniaHello/ViewModels/PdfViewerViewModel.cs:181-209 | generated thumbnails are numbered 0, 1, 2, ... in order and captioned "Page i+1"; when every page renders and fits there is exactly one per page |
| DesktopViewer.GeneratedPixels | AvaloniaHello/AvaloniaHello/ViewModels/PdfViewerViewModel.cs:234-252 | dropping alpha from a generated thumbnail's pixels gives back that page's rendered BGR bytes |
| DesktopViewer.PageChangeShowsValidPage | AvaloniaHello/AvaloniaHello/ViewModels/PdfViewerViewModel.cs:265-279 | a page change initialises the renderer only at a valid page, and at the requested page when that is valid |
| DesktopViewer.PdfViewerViewModel.constructor | AvaloniaHello/AvaloniaHello/ViewModels/PdfViewerViewModel.cs:27-36 | the viewer starts uninitialised, without document, renderer, thumbnails or error |
| DesktopViewer.PdfViewerViewModel.PageCount | AvaloniaHello/AvaloniaHello/ViewModels/PdfViewerViewModel.cs:56 | PageCount is 0 without a document and the document's page count otherwise |
| DesktopViewer.PdfViewerViewModel.Activate | AvaloniaHello/AvaloniaHello/ViewModels/PdfViewerViewModel.cs:58-62 | activation has EnsureDocumentLoaded's whole effect (DocumentLoaded: no change once initialised, the missing-file error, the rethrown open failure, or the loaded pages with their generated thumbnails); it throws exactly when a first open of an existing file fails |
| DesktopViewer.PdfViewerViewModel.EnsureDocumentLoaded | AvaloniaHello/AvaloniaHello/ViewModels/PdfViewerViewModel.cs:64-122 | it changes nothing once initialised; a missing file sets HasError and the "document path missing" message; an open failure sets the error and rethrows; a successful open sets IsInitialized, clears HasError and ErrorMessage, and generates the thumbnails |
| DesktopViewer.PdfViewerViewModel.AttachRenderer | AvaloniaHello/AvaloniaHello/ViewModels/PdfViewerViewModel.cs:124-164 | the renderer is always recorded; before initialisation only the warning and HasError are set; otherwise the renderer is initialised at ActivePageIndex and the error is cleared, or a failure sets the error and rethrows |
| DesktopViewer.PdfViewerViewModel.OnActivePageIndexChanged | AvaloniaHello/AvaloniaHello/ViewModels/PdfViewerViewModel.cs:261-288 | without a renderer or document nothing changes; otherwise the renderer is initialised at clamp(value, 0, max(0, PageCount-1)) |
| DesktopViewer.PdfViewerViewModel.SetActivePageIndex | AvaloniaHello/AvaloniaHello/ViewModels/PdfViewerViewModel.cs:43-44 | the generated setter stores the value and runs the change callback only when the value differs |
| DesktopViewer.PdfViewerViewModel.CreateThumbnail | AvaloniaHello/AvaloniaHello/ViewModels/PdfViewerViewModel.cs:218-259 | the thumbnail is none without a document, and otherwise that page's repacked bitmap, or none where the source throws |
| DesktopViewer.PdfViewerViewModel.GenerateThumbnails | AvaloniaHello/AvaloniaHello/ViewModels/PdfViewerViewModel.cs:166-216 | without a document nothing changes; otherwise the list is cleared and gets one thumbnail per page in index order up to the first page that throws; ActivePageIndex becomes 0 only after a complete run over a non-empty document; IsBusy ends false |
| DesktopViewer.PdfViewerViewModel.Dispose | AvaloniaHello/AvaloniaHello/ViewModels/PdfViewerViewModel.cs:290-304 | the first call marks the viewer disposed and drops the renderer; later calls change nothing |
| AndroidViewer.DisplayNumber | AvaloniaHello/AvaloniaHello.Android/ViewModels/AndroidPdfViewModel.cs:395 | a thumbnail's display number is its page index plus one |
| AndroidViewer.IsNullOrWhiteSpace | AvaloniaHello/AvaloniaHello.Android/ViewModels/AndroidPdfViewModel.cs:153 | true iff the text is null or every character is white space |
| AndroidViewer.HasErrorText | AvaloniaHello/AvaloniaHello.Android/ViewModels/AndroidPdfViewModel.cs:153 | HasError holds iff the message has a character that is not white space |
| AndroidViewer.FixedMessagesAreErrors | AvaloniaHello/AvaloniaHello.Android/ViewModels/AndroidPdfViewModel.cs:172-188 | the "file not found" and "unable to open" messages raise HasError; null, empty and blank messages do not |
| AndroidViewer.CanMoveTo | AvaloniaHello/AvaloniaHello.Android/ViewModels/AndroidPdfViewModel.cs:288-291 | moving to an index is allowed only for a valid page index |
| AndroidViewer.NavigationGuards | AvaloniaHello/AvaloniaHello.Android/ViewModels/AndroidPdfViewModel.cs:37-39 | CanMoveTo(i) iff 0 <= i < PageCount; so Next is enabled iff CurrentPageIndex+1 < PageCount and Previous iff CurrentPageIndex >= 1 |
| AndroidViewer.ThumbnailRun | AvaloniaHello/AvaloniaHello.Android/ViewModels/AndroidPdfViewModel.cs:331-352 | the run over pages 0..n-1 holds, at position i, the thumbnail of page i with that render's bitmap |
| AndroidViewer.FirstFailedRender | AvaloniaHello/AvaloniaHello.Android/ViewModels/AndroidPdfViewModel.cs:331-352 | the index where the thumbnail loop stops: every page before it renders, and the render at it throws unless it is the page count |
| AndroidViewer.ThumbnailRunNumbering | AvaloniaHello/AvaloniaHello.Android/ViewModels/AndroidPdfViewModel.cs:347 | thumbnails are in index order and thumbnail i has DisplayNumber i + 1 |
| AndroidViewer.ImagesOf | AvaloniaHello/AvaloniaHello.Android/ViewModels/AndroidPdfViewModel.cs:373-376 | the bitmaps of a thumbnail list, in list order |
| AndroidViewer.SetterDisposals | AvaloniaHello/AvaloniaHello.Android/ViewModels/AndroidPdfViewModel.cs:271-286 | the CurrentPageImage setter disposes at most one bitmap per call |
| AndroidViewer.SetterKeepsShownImage | AvaloniaHello/AvaloniaHello.Android/ViewModels/AndroidPdfViewModel.cs:271-286 | on a change the previous bitmap is disposed and the new one is not; passing the current bitmap again disposes it; null to null disposes nothing |
| AndroidViewer.AndroidPdfViewModel.constructor | AvaloniaHello/AvaloniaHello.Android/ViewModels/AndroidPdfViewModel.cs:31-41 | the viewer starts unactivated, without document, image or thumbnails, at page 0 and zoom 1.25 |
| AndroidViewer.AndroidPdfViewModel.DisplayPageNumber | AvaloniaHello/AvaloniaHello.Android/ViewModels/AndroidPdfViewModel.cs:115 | the displayed page number is CurrentPageIndex + 1, and between operations lies in [1, max(1, PageCount)]; a successful Next raises it by one and a successful Previous lowers it by one |
| AndroidViewer.AndroidPdfViewModel.HasThumbnails | AvaloniaHello/AvaloniaHello.Android/ViewModels/AndroidPdfViewModel.cs:137 | HasThumbnails iff the list is non-empty, never before activation; it is false after ResetThumbnails and Dispose, and after a fill holds iff the document has pages and page 0 renders |
| AndroidViewer.AndroidPdfViewModel.HasError | AvaloniaHello/AvaloniaHello.Android/ViewModels/AndroidPdfViewModel.cs:153 | HasError iff ErrorMessage holds a character that is not white space; Activate's missing-file and null-document messages raise it and a first successful page load clears it |
| AndroidViewer.AndroidPdfViewModel.SetCurrentPage | AvaloniaHello/AvaloniaHello.Android/ViewModels/AndroidPdfViewModel.cs:271-286 | the new image is shown and exactly the setter's disposals are logged |
| AndroidViewer.AndroidPdfViewModel.LoadPage | AvaloniaHello/AvaloniaHello.Android/ViewModels/AndroidPdfViewModel.cs:216-251 | without a document no state changes; otherwise the request resolves to clamp(req, 0, max(0, PageCount-1)) and a successful render shows the bitmap at it, so 0 <= CurrentPageIndex < PageCount when PageCount > 0; a failure only sets ErrorMessage |
| AndroidViewer.AndroidPdfViewModel.NextPage | AvaloniaHello/AvaloniaHello.Android/ViewModels/AndroidPdfViewModel.cs:206-209 | Next loads CurrentPageIndex + 1 and, when it may move there and the render succeeds, advances the index and DisplayPageNumber by exactly one |
| AndroidViewer.AndroidPdfViewModel.PreviousPage | AvaloniaHello/AvaloniaHello.Android/ViewModels/AndroidPdfViewModel.cs:211-214 | Previous loads CurrentPageIndex - 1 and, when it may move there and the render succeeds, moves the index and DisplayPageNumber back by exactly one |
| AndroidViewer.AndroidPdfViewModel.SelectPage | AvaloniaHello/AvaloniaHello.Android/ViewModels/AndroidPdfViewModel.cs:253-257 | selecting loads that page and leaves thumbnail mode |
| AndroidViewer.AndroidPdfViewModel.SetZoom | AvaloniaHello/AvaloniaHello.Android/ViewModels/AndroidPdfViewModel.cs:63-74 | Zoom becomes the value clamped to [0.75, 2.5]; the current page is reloaded iff the stored value changed, and otherwise nothing changes |
| AndroidViewer.AndroidPdfViewModel.Activate | AvaloniaHello/AvaloniaHello.Android/ViewModels/AndroidPdfViewModel.cs:155-168 | the first call marks the view model activated and has LoadDocumentAsync's whole effect (DocumentLoaded) on the initial, empty state; later calls only reload the current page, and only with a document and no image, leaving document, PageCount and thumbnails alone; Zoom and IsThumbnailMode never change |
| AndroidViewer.AndroidPdfViewModel.LoadDocument | AvaloniaHello/AvaloniaHello.Android/ViewModels/AndroidPdfViewModel.cs:170-204 | a missing file, a null document and an exception each set their message (the two fixed ones raise HasError) and change neither the document, the page, the image, the thumbnails nor the disposal log; an opened document sets PageCount, empties the list and loads page 0, logging the thumbnails' and the image setter's disposals; Zoom and IsThumbnailMode never change |
| AndroidViewer.AndroidPdfViewModel.ShowDocument | AvaloniaHello/AvaloniaHello.Android/ViewModels/AndroidPdfViewModel.cs:191-193 | after a successful open the document and PageCount are set, the list is empty, the index is 0, and a successful render of page 0 shows its bitmap with no error while a failed one only sets the message |
| AndroidViewer.AndroidPdfViewModel.EnsureThumbnails | AvaloniaHello/AvaloniaHello.Android/ViewModels/AndroidPdfViewModel.cs:309-364 | nothing happens without a document or with existing thumbnails; otherwise thumbnails for pages 0..PageCount-1 are appended in order until a render throws, so HasThumbnails holds iff page 0 renders |
| AndroidViewer.AndroidPdfViewModel.SetThumbnailMode | AvaloniaHello/AvaloniaHello.Android/ViewModels/AndroidPdfViewModel.cs:117-131 | switching thumbnail mode on runs the thumbnail fill, which is a no-op without a document or with thumbnails present; any other assignment leaves the list alone |
| AndroidViewer.AndroidPdfViewModel.ResetThumbnails | AvaloniaHello/AvaloniaHello.Android/ViewModels/AndroidPdfViewModel.cs:366-381 | every thumbnail's bitmap is disposed in list order and the list is left empty (an empty list changes nothing) |
| AndroidViewer.AndroidPdfViewModel.Dispose | AvaloniaHello/AvaloniaHello.Android/ViewModels/AndroidPdfViewModel.cs:300-307 | image and document become null and the thumbnail list empty; the shown bitmap and then every thumbnail are disposed |
| AppNavigation.AppViewModel.constructor | AvaloniaHello/AvaloniaHello/ViewModels/AppViewModel.cs:23-43 | the navigator starts on HomeViewModel with no cached viewer and no presenter calls |
| AppNavigation.NewAppViewModel | AvaloniaHello/AvaloniaHello/ViewModels/AppViewModel.cs:26 | a null presenter is rejected; otherwise a new navigator starts on the home view |
| AppNavigation.AppViewModel.ShowHome | AvaloniaHello/AvaloniaHello/ViewModels/AppViewModel.cs:54-58 | CurrentViewModel becomes HomeViewModel and nothing else changes |
| AppNavigation.AppViewModel.ShowPdfViewer | AvaloniaHello/AvaloniaHello/ViewModels/AppViewModel.cs:60-103 | when the command guard (file exists) fails nothing changes; without a cache the presenter is asked once; a refusal means exactly one external presentation with the cache still null and CurrentViewModel unchanged; otherwise the cached viewer is reused and left in place and activated if it is a PDF document view model; it is shown unless that activation throws, in which case the exception leaves the method with CurrentViewModel unchanged and the viewer cached |
| AppNavigation.CanShowPdfViewer | AvaloniaHello/AvaloniaHello/ViewModels/AppViewModel.cs:37 | ShowPdfViewerCommand can execute exactly when the PDF file exists; ShowPdfViewer changes nothing when it cannot |
| AppNavigation.AtMostOneCreation | AvaloniaHello/AvaloniaHello/ViewModels/AppViewModel.cs:72-88 | creation requests exceed external presentations by at most one, so embedded creation succeeds at most once; without a cached viewer the home view is shown |
| BoolToBrush.Split | AvaloniaHello/AvaloniaHello/Converters/BoolToBrushConverter.cs:14 | Split yields at least one segment and no segment contains the separator |
| BoolToBrush.SplitCount | AvaloniaHello/AvaloniaHello/Converters/BoolToBrushConverter.cs:14-15 | there is one more segment than separators, so exactly two segments means exactly one ';' |
| BoolToBrush.JoinSplit | AvaloniaHello/AvaloniaHello/Converters/BoolToBrushConverter.cs:14 | joining the segments with ';' gives back the parameter |
| BoolToBrush.Convert | AvaloniaHello/AvaloniaHello/Converters/BoolToBrushConverter.cs:10-27 | the brush is the default, or the parse of one of the parameter's segments when the value is a bool and the parameter a string |
| BoolToBrush.ConvertBack | AvaloniaHello/AvaloniaHello/Converters/BoolToBrushConverter.cs:29-32 | ConvertBack always throws NotImplementedException |
| BoolToBrush.ConvertDefaultsOnWrongTypes | AvaloniaHello/AvaloniaHello/Converters/BoolToBrushConverter.cs:12 | a non-bool value or a non-string parameter gives the #1d4ed8 brush |
| BoolToBrush.ConvertDefaultsOnSegmentCount | AvaloniaHello/AvaloniaHello/Converters/BoolToBrushConverter.cs:15 | a segment count other than 2 gives the #1d4ed8 brush |
| BoolToBrush.ConvertSelectsSegment | AvaloniaHello/AvaloniaHello/Converters/BoolToBrushConverter.cs:17-21 | for "f;t", true selects t and false selects f; the brush is the parsed colour, or the default when the chosen segment fails to parse, even if the other one parses |
| BoolToBrush.TwoSegmentsAreJoined | AvaloniaHello/AvaloniaHello/Converters/BoolToBrushConverter.cs:14-15 | every two-segment parameter is its two segments joined by one ';', so ConvertSelectsSegment covers every two-segment case |

## Left out

- Native rendering and conversion are oracle parameters and are not modelled: MuPDF `Render`, `PDFRenderer.Initialize`/`Cover`/`ReleaseResources`, `AndroidPdfDocument.TryOpen`/`RenderPage`, `ToAvaloniaBitmap`, `WriteableBitmap` and `Marshal.Copy`. The desktop model does not log the disposal of the MuPDF document and context.
- The native `Android.Graphics.Bitmap` that `using (androidBitmap)` releases after each conversion (AndroidPdfViewModel.cs:232, :342) is not modelled: only Avalonia bitmaps are identified and their disposals logged, since the native bitmap lives inside the render oracle.
- Concurrency is not modelled: `Task.Run`, `Dispatcher.UIThread.Post`/`InvokeAsync`, `ContinueWith`, `_documentLock`, the `_thumbnailWarmupTask` coalescing, and the in-loop `_document is null` checks that only matter when a Dispose runs concurrently. Each operation runs to completion. The desktop thumbnail run, which the source starts without awaiting it, runs inside `EnsureDocumentLoaded`.
- Floating-point sizing is not modelled: the thumbnail zoom `180/width` clamped to [0.08, 0.6], `bounds.Round`, `ZoomWidth`, the 0.3 and Zoom render scales, and the iOS target size. Each page's rounded size is part of the render oracle.
- AndroidViewer.AndroidPdfViewModel.SetZoom: models Zoom over mathematical reals, so a NaN assignment is not covered.
- DesktopViewer.PdfViewerViewModel.OnActivePageIndexChanged: when renderer initialisation fails (caught and logged in the source), the model keeps the renderer's recorded page, because the renderer's state after that failure is foreign.
- AndroidViewer.AndroidPdfViewModel.constructor: a null file path (ArgumentNullException) cannot be expressed, because Dafny strings are never null.
- AppNavigation.AppViewModel.ShowPdfViewer: a presenter that reports success but creates a null view model is not modelled. The repository's presenters either decline or create one.
- The activation that `ShowPdfViewer` triggers is logged in `activations`, and whether it throws is the parameter `activationThrows`. It is not linked to the viewer models' own `Activate`.
- `ResolvePdfPath`, `TryExtractPdfAsset` and File.Exists are I/O, and so is the parameterless constructor's `PdfPresenter.Current`. The resolved path is a parameter.
- Integer width is not modelled. `width * height * 4` and `PageNumber + 1` are unbounded here, while .NET's 32-bit arithmetic could overflow only for sizes no page reaches.
- These are left out as property-changed notifications and UI glue: `NotifyCanExecuteChanged`, `OnPropertyChanged`, `ImageInfo`, `HasImage`, `HasNoThumbnails`, `IsSinglePageMode`, the Back commands, and console and debug logging. AsyncRelayCommand's own "not while running" guard is concurrency.
- Android's `IsBusy` and `IsLoadingThumbnails` are raised and lowered inside one operation, so between operations they are always false.
- `Color.TryParse` is the oracle `tryParse`. The fallback colour is written out as the value `Color.Parse("#1d4ed8")` yields: opaque, 0x1d, 0x4e, 0xd8.
- The iOS document wrapper, maps, drag-and-drop, launchers, presenters and program bootstrap are not part of this model. They are platform glue, and the iOS page clamp is the same `PageClamp`.
