/** The application's navigator (ViewModels/AppViewModel.cs): it shows the home view or the PDF
    view, creates the embedded PDF view model lazily through a platform presenter, reuses it
    afterwards, and falls back to presenting the file externally when the presenter declines.

    The presenter is an oracle: each call to TryCreateEmbeddedViewModel is answered by a Creation
    parameter, and the calls to both presenter operations are counted. File.Exists is a boolean
    parameter and the resolved file path is given to the factory. */
module AppNavigation {
  import opened Common

  /** A view model created by the presenter, and whether it is an IPdfDocumentViewModel. */
  datatype EmbeddedViewer = EmbeddedViewer(id: nat, isPdfDocument: bool)

  /** What CurrentViewModel can show: the HomeViewModel or an embedded viewer. */
  datatype Screen = Home | Viewer(viewer: EmbeddedViewer)

  /** The answer of TryCreateEmbeddedViewModel: false, or true with the created view model. */
  datatype Creation = Declined | Created(viewer: EmbeddedViewer)

  /** The presenter passed to the constructor; null is None. */
  type PresenterRef = nat

  /** The can-execute of ShowPdfViewerCommand: the PDF file exists. */
  predicate CanShowPdfViewer(fileExists: bool): (r: bool)
    ensures r <==> fileExists
  {
    fileExists
  }

  class AppViewModel {
    const pdfFilePath: string
    const presenter: PresenterRef
    var currentViewModel: Screen
    var embeddedPdfViewModel: Option<EmbeddedViewer>
    ghost var creationRequests: nat
    ghost var externalPresentations: nat
    ghost var activations: seq<EmbeddedViewer>

    /** The PDF view is only ever the cached viewer; every creation request was either declined,
        and followed by one external presentation, or is the single one that succeeded. */
    ghost predicate Valid()
      reads this
    {
      && (currentViewModel == Home || Some(currentViewModel.viewer) == embeddedPdfViewModel)
      && creationRequests == externalPresentations + (if embeddedPdfViewModel.Some? then 1 else 0)
      && (forall i :: 0 <= i < |activations| ==> Some(activations[i]) == embeddedPdfViewModel)
    }

    constructor (presenter: PresenterRef, pdfFilePath: string)
      ensures Valid()
      ensures this.presenter == presenter && this.pdfFilePath == pdfFilePath
      ensures currentViewModel == Home && embeddedPdfViewModel.None?
      ensures creationRequests == 0 && externalPresentations == 0 && activations == []
    {
      this.presenter := presenter;
      this.pdfFilePath := pdfFilePath;
      currentViewModel := Home;
      embeddedPdfViewModel := None;
      creationRequests := 0;
      externalPresentations := 0;
      activations := [];
    }

    /** ShowHome: back to the home view; nothing else changes. */
    method ShowHome()
      requires Valid()
      modifies this`currentViewModel
      ensures Valid()
      ensures currentViewModel == Home
    {
      currentViewModel := Home;
    }

    /** ShowPdfViewerAsync. A missing file changes nothing. Without a cached viewer the presenter
        is asked once: a refusal leads to exactly one external presentation and no other change;
        a viewer it creates is cached. The cached viewer is activated when it is a PDF document
        view model, and becomes the current view model unless that activation throws
        (`activationThrows`, as the desktop viewer's Activate does when the document does not
        open), in which case the exception leaves the method with the view unchanged. */
    method ShowPdfViewer(fileExists: bool, creation: Creation, activationThrows: bool) returns (thrown: bool)
      requires Valid()
      modifies this`currentViewModel, this`embeddedPdfViewModel, this`creationRequests,
               this`externalPresentations, this`activations
      ensures Valid()
      ensures !CanShowPdfViewer(fileExists) ==> unchanged(this) && !thrown
      ensures fileExists && old(embeddedPdfViewModel).None? ==> creationRequests == old(creationRequests) + 1
      ensures fileExists && old(embeddedPdfViewModel).Some? ==>
        creationRequests == old(creationRequests) && embeddedPdfViewModel == old(embeddedPdfViewModel)
        && externalPresentations == old(externalPresentations)
      ensures fileExists && old(embeddedPdfViewModel).None? && creation.Declined? ==>
        && externalPresentations == old(externalPresentations) + 1
        && embeddedPdfViewModel.None? && currentViewModel == old(currentViewModel) && activations == old(activations)
        && !thrown
      ensures fileExists && (old(embeddedPdfViewModel).Some? || creation.Created?) ==>
        var shown := if old(embeddedPdfViewModel).Some? then old(embeddedPdfViewModel).value else creation.viewer;
        && embeddedPdfViewModel == Some(shown)
        && activations == old(activations) + (if shown.isPdfDocument then [shown] else [])
        && externalPresentations == old(externalPresentations)
        && (thrown <==> shown.isPdfDocument && activationThrows)
        && currentViewModel == (if thrown then old(currentViewModel) else Viewer(shown))
    {
      thrown := false;
      if !fileExists {
        return;
      }
      if embeddedPdfViewModel.None? {
        creationRequests := creationRequests + 1;
        if creation.Declined? {
          externalPresentations := externalPresentations + 1;
          return;
        }
        embeddedPdfViewModel := Some(creation.viewer);
      }
      var viewer := embeddedPdfViewModel.value;
      if viewer.isPdfDocument {
        activations := activations + [viewer];
        if activationThrows {
          thrown := true;
          return;
        }
      }
      currentViewModel := Viewer(viewer);
    }
  }

  /** The constructor AppViewModel(IPdfPresenter): a null presenter throws ArgumentNullException
      (None here); otherwise the navigator starts on the home view with nothing cached. */
  method NewAppViewModel(presenter: Option<PresenterRef>, pdfFilePath: string) returns (app: Option<AppViewModel>)
    ensures app.None? <==> presenter.None?
    ensures app.Some? ==> fresh(app.value) && app.value.Valid()
    ensures app.Some? ==> app.value.currentViewModel == Home && app.value.embeddedPdfViewModel.None?
    ensures app.Some? ==> app.value.creationRequests == 0 && app.value.externalPresentations == 0
  {
    if presenter.None? {
      return None;
    }
    var created := new AppViewModel(presenter.value, pdfFilePath);
    app := Some(created);
  }

  /** However the home and PDF commands interleave, the presenter's creation succeeds at most
      once: the requests exceed the external presentations by at most one. */
  lemma AtMostOneCreation(app: AppViewModel)
    requires app.Valid()
    ensures app.creationRequests - app.externalPresentations <= 1
    ensures app.embeddedPdfViewModel.None? ==> app.currentViewModel == Home
  {
  }
}
