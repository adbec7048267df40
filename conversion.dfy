/**
 * The page loop of `convertPDFToImages`, as a function of the state it acts
 * on: for pages 1..N in order, the page is rendered, its image decoded,
 * written under its image name and linked from the active editor; the first
 * page that fails ends the run and leaves the earlier pages in place. A page
 * fails when it cannot be rendered, when its image does not decode, or when
 * its image name is already taken in the vault (`createBinary` refuses to
 * replace an existing file).
 */
module Conversion {
  import opened Wrappers
  import opened Host
  import opened Base64
  import opened DataUri
  import opened FileNames

  /**
   * What the renderer makes of one page: the data URI the canvas encodes,
   * or no image because no 2D context could be obtained for the canvas.
   */
  datatype PageImage = Rendered(dataUri: string) | NoContext

  /** The errors a page can raise. */
  datatype PageError = RenderingContextUnavailable | InvalidBase64 | FileAlreadyExists

  /**
   * How a conversion ends: all pages done, the document could not be
   * opened, or page `pageNumber` raised `error`.
   */
  datatype Outcome = Done | OpenFailed | PageFailed(pageNumber: nat, error: PageError)

  /**
   * What the conversion acts on: the vault's binary files by path, the paths
   * created so far in the order they were created, and the editor of the
   * active markdown view, if any.
   */
  datatype State = State(files: map<string, seq<byte>>, created: seq<string>, editor: Option<Editor>)

  /** The text `insertImageLink` inserts for an image. */
  function Link(fileName: string): string {
    "![[" + fileName + "]]\n"
  }

  /** `insertImageLink`: the link replaces the selection of the active editor, if there is one. */
  function InsertLink(editor: Option<Editor>, fileName: string): (r: Option<Editor>)
    ensures r.Some? <==> editor.Some?
    ensures r.Some? ==> r.value.Text() == editor.value.before + Link(fileName) + editor.value.after
  {
    match editor
    case Some(e) => Some(e.ReplaceSelection(Link(fileName)))
    case None => None
  }

  /**
   * `renderPageToImageData` followed by `dataURItoBuffer`: the bytes of the
   * page's image. No 2D context fails the page before anything is decoded;
   * a rendered page fails with `InvalidBase64` exactly when `atob` fails.
   */
  function PageBytes(image: PageImage): (r: Result<seq<byte>, PageError>)
    ensures image.NoContext? ==> r == Failure(RenderingContextUnavailable)
    ensures image.Rendered? ==> (r.Success? <==> BufferOf(image.dataUri).Success?)
    ensures image.Rendered? && r.Success? ==> r.value == BufferOf(image.dataUri).value
    ensures image.Rendered? && r.Failure? ==> r.error == InvalidBase64
  {
    match image
    case NoContext => Failure(RenderingContextUnavailable)
    case Rendered(uri) =>
      match BufferOf(uri)
      case Success(bytes) => Success(bytes)
      case Failure(_) => Failure(InvalidBase64)
  }

  /**
   * One page written at a free path and linked: `fileName` holds `bytes`,
   * the path is the last one created, and the active editor (if any)
   * receives the link. `SavePageKeeps` says that no other path changes.
   */
  function SavePage(st: State, fileName: string, bytes: seq<byte>): (r: State)
    ensures fileName in r.files && r.files[fileName] == bytes
    ensures r.created == st.created + [fileName]
    ensures r.editor == InsertLink(st.editor, fileName)
  {
    State(st.files[fileName := bytes], st.created + [fileName], InsertLink(st.editor, fileName))
  }

  /** Saving a page adds its path to the vault and changes no other path. */
  lemma SavePageKeeps(st: State, fileName: string, bytes: seq<byte>)
    ensures SavePage(st, fileName, bytes).files.Keys == st.files.Keys + {fileName}
    ensures forall p :: p in st.files && p != fileName ==> SavePage(st, fileName, bytes).files[p] == st.files[p]
  {
  }

  /** What each page yields: its image's bytes, or the error it raises. */
  type PageResult = Result<seq<byte>, PageError>

  function PageResults(pages: seq<PageImage>): (r: seq<PageResult>)
    ensures |r| == |pages|
    ensures forall i :: 0 <= i < |pages| ==> r[i] == PageBytes(pages[i])
  {
    seq(|pages|, i requires 0 <= i < |pages| => PageBytes(pages[i]))
  }

  /**
   * Pages `k`, `k + 1`, ... of `file`, from state `st`, where `results` says
   * what each of these pages yields. The run ends normally or at one of
   * these pages; it creates exactly one file per page before the one that
   * ends it, and removes no file.
   */
  function Pages(st: State, file: TFile, format: string, results: seq<PageResult>, k: nat): (r: (State, Outcome))
    ensures r.1.Done? || (r.1.PageFailed? && k <= r.1.pageNumber < k + |results|)
    ensures r.1.Done? ==> |r.0.created| == |st.created| + |results|
    ensures r.1.PageFailed? ==> |r.0.created| == |st.created| + (r.1.pageNumber - k)
    ensures st.files.Keys <= r.0.files.Keys
    decreases |results|
  {
    if results == [] then (st, Done)
    else
      match results[0]
      case Failure(e) => (st, PageFailed(k, e))
      case Success(bytes) =>
        var name := ImageFileName(file, k, format);
        if name in st.files then (st, PageFailed(k, FileAlreadyExists))
        else Pages(SavePage(st, name, bytes), file, format, results[1..], k + 1)
  }

  /**
   * `convertPDFToImages(file)`: `document` is what the PDF library makes of
   * the file's bytes, the images of its pages, or None when it cannot open it.
   * Only a document that cannot be opened reports `OpenFailed`, and then
   * nothing changes; a failing page is one of the document's pages.
   */
  function Convert(st: State, file: TFile, format: string, document: Option<seq<PageImage>>): (r: (State, Outcome))
    ensures r.1 == OpenFailed <==> document.None?
    ensures document.None? ==> r.0 == st
    ensures r.1.PageFailed? ==> 1 <= r.1.pageNumber <= |document.value|
    ensures st.files.Keys <= r.0.files.Keys
  {
    match document
    case None => (st, OpenFailed)
    case Some(pages) => Pages(st, file, format, PageResults(pages), 1)
  }

  // ---------------------------------------------------------------------
  // Reference descriptions of a run
  // ---------------------------------------------------------------------

  /** The names of the images of pages `k`, ..., `k + n - 1`, in page order. */
  function Names(file: TFile, format: string, k: nat, n: nat): (r: seq<string>)
    ensures |r| == n
    ensures forall i :: 0 <= i < n ==> r[i] == ImageFileName(file, k + i, format)
  {
    seq(n, i requires 0 <= i < n => ImageFileName(file, k + i, format))
  }

  /** The links to the images of pages `k`, ..., `k + n - 1`, one after the other. */
  function Links(file: TFile, format: string, k: nat, n: nat): string
    decreases n
  {
    if n == 0 then "" else Link(ImageFileName(file, k, format)) + Links(file, format, k + 1, n - 1)
  }

  /** The active editor after the links `text` of `n` pages were inserted one by one. */
  function AfterLinks(editor: Option<Editor>, n: nat, text: string): Option<Editor> {
    if n == 0 then editor
    else match editor
      case Some(e) => Some(e.ReplaceSelection(text))
      case None => None
  }

  predicate AllDecode(pages: seq<PageResult>) {
    forall i :: 0 <= i < |pages| ==> pages[i].Success?
  }

  /** None of the image names of pages `k`, ..., `k + n - 1` is taken in `files`. */
  predicate NamesFree(files: map<string, seq<byte>>, file: TFile, format: string, k: nat, n: nat) {
    forall j :: k <= j < k + n ==> ImageFileName(file, j, format) !in files
  }

  // ---------------------------------------------------------------------
  // Properties of a run
  // ---------------------------------------------------------------------

  /** Distinct pages of one conversion never share an image name. */
  lemma NamesDistinct(file: TFile, format: string, k: nat, n: nat)
    ensures forall i, j :: 0 <= i < n && 0 <= j < n && i != j ==>
      Names(file, format, k, n)[i] != Names(file, format, k, n)[j]
  {
    var names := Names(file, format, k, n);
    forall i, j | 0 <= i < n && 0 <= j < n && names[i] == names[j]
      ensures i == j
    {
      ImageFileNameInjective(file, k + i, k + j, format);
    }
  }

  /** Writing page `k` of a run leaves the names of the later pages free. */
  lemma NamesFreeAfterSave(st: State, file: TFile, format: string, k: nat, n: nat, bytes: seq<byte>)
    requires n > 0 && NamesFree(st.files, file, format, k, n)
    ensures NamesFree(SavePage(st, ImageFileName(file, k, format), bytes).files, file, format, k + 1, n - 1)
  {
    var name := ImageFileName(file, k, format);
    var files := SavePage(st, name, bytes).files;
    forall j | k + 1 <= j < k + n ensures ImageFileName(file, j, format) !in files {
      if ImageFileName(file, j, format) == name {
        ImageFileNameInjective(file, j, k, format);
      }
    }
  }

  /** The first step of a run whose first page decodes and whose first name is free. */
  lemma PagesStep(st: State, file: TFile, format: string, pages: seq<PageResult>, k: nat)
    requires pages != [] && pages[0].Success? && ImageFileName(file, k, format) !in st.files
    ensures Pages(st, file, format, pages, k) ==
      Pages(SavePage(st, ImageFileName(file, k, format), pages[0].value), file, format, pages[1..], k + 1)
  {
  }

  /** The rest of a run whose pages all decode decodes too. */
  lemma AllDecodeRest(pages: seq<PageResult>)
    requires pages != [] && AllDecode(pages)
    ensures AllDecode(pages[1..])
  {
    forall j | 0 <= j < |pages| - 1 ensures pages[1..][j].Success? {
      assert pages[1..][j] == pages[j + 1];
    }
  }

  /**
   * When every page decodes and no image name is taken, the run ends
   * normally and creates exactly the images of pages `k`, ...,
   * `k + |pages| - 1`, in that order.
   */
  lemma {:induction false} PagesCreated(st: State, file: TFile, format: string, pages: seq<PageResult>, k: nat)
    requires AllDecode(pages) && NamesFree(st.files, file, format, k, |pages|)
    ensures Pages(st, file, format, pages, k).1 == Done
    ensures Pages(st, file, format, pages, k).0.created == st.created + Names(file, format, k, |pages|)
    decreases |pages|
  {
    if pages != [] {
      var st1 := SavePage(st, ImageFileName(file, k, format), pages[0].value);
      PagesStep(st, file, format, pages, k);
      AllDecodeRest(pages);
      NamesFreeAfterSave(st, file, format, k, |pages|, pages[0].value);
      PagesCreated(st1, file, format, pages[1..], k + 1);
      assert Names(file, format, k, |pages|) == [ImageFileName(file, k, format)] + Names(file, format, k + 1, |pages| - 1);
    }
  }

  /**
   * When every page decodes and no image name is taken, the active editor
   * receives the links to all the images, in page order, at its cursor;
   * with no active editor, or no page, it is left alone.
   */
  lemma {:induction false} PagesEditor(st: State, file: TFile, format: string, pages: seq<PageResult>, k: nat)
    requires AllDecode(pages) && NamesFree(st.files, file, format, k, |pages|)
    ensures Pages(st, file, format, pages, k).0.editor == AfterLinks(st.editor, |pages|, Links(file, format, k, |pages|))
    decreases |pages|
  {
    if pages != [] {
      var name := ImageFileName(file, k, format);
      var st1 := SavePage(st, name, pages[0].value);
      PagesStep(st, file, format, pages, k);
      AllDecodeRest(pages);
      NamesFreeAfterSave(st, file, format, k, |pages|, pages[0].value);
      PagesEditor(st1, file, format, pages[1..], k + 1);
      var rest := Links(file, format, k + 1, |pages| - 1);
      assert Links(file, format, k, |pages|) == Link(name) + rest;
      if st.editor.Some? {
        if |pages| > 1 {
          ReplaceSelectionTwice(st.editor.value, Link(name), rest);
        } else {
          assert Link(name) + rest == Link(name);
        }
      }
    }
  }

  /**
   * When every page decodes and no image name is taken, the image of page
   * `k + i` holds that page's bytes.
   */
  lemma {:induction false} PageWritten(st: State, file: TFile, format: string, pages: seq<PageResult>, k: nat, i: nat)
    requires AllDecode(pages) && NamesFree(st.files, file, format, k, |pages|) && i < |pages|
    ensures var files := Pages(st, file, format, pages, k).0.files;
      ImageFileName(file, k + i, format) in files && files[ImageFileName(file, k + i, format)] == pages[i].value
    decreases i
  {
    var name := ImageFileName(file, k, format);
    var st1 := SavePage(st, name, pages[0].value);
    PagesStep(st, file, format, pages, k);
    AllDecodeRest(pages);
    NamesFreeAfterSave(st, file, format, k, |pages|, pages[0].value);
    if i == 0 {
      NotLaterName(file, format, k, |pages| - 1);
      PagesKeep(st1, file, format, pages[1..], k + 1, name);
    } else {
      PageWritten(st1, file, format, pages[1..], k + 1, i - 1);
      assert pages[1..][i - 1] == pages[i] && k + 1 + (i - 1) == k + i;
    }
  }

  /** The image of page `k` is not the image of any later page. */
  lemma NotLaterName(file: TFile, format: string, k: nat, n: nat)
    ensures ImageFileName(file, k, format) !in Names(file, format, k + 1, n)
  {
    var names := Names(file, format, k + 1, n);
    forall i | 0 <= i < n ensures names[i] != ImageFileName(file, k, format) {
      if names[i] == ImageFileName(file, k, format) {
        ImageFileNameInjective(file, k + 1 + i, k, format);
      }
    }
  }

  /** A run writes to no path other than its pages' image names. */
  lemma {:induction false} PagesKeep(st: State, file: TFile, format: string, pages: seq<PageResult>, k: nat, p: string)
    requires AllDecode(pages) && NamesFree(st.files, file, format, k, |pages|)
    requires p !in Names(file, format, k, |pages|)
    ensures var files := Pages(st, file, format, pages, k).0.files;
      (p in files <==> p in st.files) && (p in st.files ==> files[p] == st.files[p])
    decreases |pages|
  {
    if pages != [] {
      var name := ImageFileName(file, k, format);
      var st1 := SavePage(st, name, pages[0].value);
      PagesStep(st, file, format, pages, k);
      AllDecodeRest(pages);
      NamesFreeAfterSave(st, file, format, k, |pages|, pages[0].value);
      assert Names(file, format, k, |pages|) == [name] + Names(file, format, k + 1, |pages| - 1);
      SavePageKeeps(st, name, pages[0].value);
      PagesKeep(st1, file, format, pages[1..], k + 1, p);
    }
  }

  /**
   * The first page that fails ends the run with its number and its error:
   * the page's own error when it does not render or decode, and
   * `FileAlreadyExists` when its image name is taken. The state is the one
   * reached by the pages before it, so nothing is written or linked for it or
   * for any later page.
   */
  lemma {:induction false} PagesStopAtFailure(st: State, file: TFile, format: string, pages: seq<PageResult>, k: nat, j: nat)
    requires j < |pages| && AllDecode(pages[..j]) && NamesFree(st.files, file, format, k, j)
    requires pages[j].Failure? || ImageFileName(file, k + j, format) in st.files
    ensures Pages(st, file, format, pages, k) ==
      (Pages(st, file, format, pages[..j], k).0,
       PageFailed(k + j, if pages[j].Failure? then pages[j].error else FileAlreadyExists))
    decreases j
  {
    if j > 0 {
      var name := ImageFileName(file, k, format);
      var st1 := SavePage(st, name, pages[0].value);
      PrefixRest(pages, j);
      PagesStep(st, file, format, pages, k);
      PagesStep(st, file, format, pages[..j], k);
      NamesFreeAfterSave(st, file, format, k, j, pages[0].value);
      assert k + 1 + (j - 1) == k + j;
      PagesStopAtFailure(st1, file, format, pages[1..], k + 1, j - 1);
    }
  }

  /** The first `j` pages of the rest of a run are the rest of its first `j + 1` pages. */
  lemma PrefixRest(pages: seq<PageResult>, j: nat)
    requires 0 < j < |pages| && AllDecode(pages[..j])
    ensures pages[..j] != [] && pages[..j][0] == pages[0] && pages[0].Success?
    ensures pages[..j][1..] == pages[1..][..j - 1] && AllDecode(pages[1..][..j - 1])
    ensures pages[1..][j - 1] == pages[j]
  {
    assert pages[..j][0] == pages[0];
    var before := pages[1..][..j - 1];
    assert before == pages[..j][1..];
    forall i | 0 <= i < |before| ensures before[i].Success? {
      assert before[i] == pages[..j][i + 1];
    }
  }

  /** A document that cannot be opened, or that has no page, changes nothing. */
  lemma ConvertNothing(st: State, file: TFile, format: string, document: Option<seq<PageImage>>)
    requires document.None? || document.value == []
    ensures Convert(st, file, format, document).0 == st
    ensures Convert(st, file, format, document).1 == if document.None? then OpenFailed else Done
  {
  }

  /**
   * A whole conversion of an N-page document whose images all decode and
   * whose image names are all free: exactly the images of pages 1..N are
   * created, in that order, under pairwise distinct names; each holds its
   * page's bytes; nothing else in the vault changes; the links to all of
   * them are inserted in order.
   */
  lemma ConvertAll(st: State, file: TFile, format: string, pages: seq<PageImage>)
    requires forall i :: 0 <= i < |pages| ==> PageBytes(pages[i]).Success?
    requires NamesFree(st.files, file, format, 1, |pages|)
    ensures var (st', outcome) := Convert(st, file, format, Some(pages));
      var names := Names(file, format, 1, |pages|);
      outcome == Done &&
      st'.created == st.created + names &&
      (forall i :: 0 <= i < |pages| ==> names[i] in st'.files && Success(st'.files[names[i]]) == PageBytes(pages[i])) &&
      (forall p :: p !in names ==> (p in st'.files <==> p in st.files) && (p in st.files ==> st'.files[p] == st.files[p])) &&
      st'.editor == AfterLinks(st.editor, |pages|, Links(file, format, 1, |pages|))
  {
    var results := PageResults(pages);
    assert AllDecode(results);
    PagesAll(st, file, format, results, 1);
  }

  /** The properties of a run whose pages all decode and whose names are free, together. */
  lemma PagesAll(st: State, file: TFile, format: string, results: seq<PageResult>, k: nat)
    requires AllDecode(results) && NamesFree(st.files, file, format, k, |results|)
    ensures var (st', outcome) := Pages(st, file, format, results, k);
      var names := Names(file, format, k, |results|);
      outcome == Done &&
      st'.created == st.created + names &&
      (forall i :: 0 <= i < |results| ==> names[i] in st'.files && Success(st'.files[names[i]]) == results[i]) &&
      (forall p :: p !in names ==> (p in st'.files <==> p in st.files) && (p in st.files ==> st'.files[p] == st.files[p])) &&
      st'.editor == AfterLinks(st.editor, |results|, Links(file, format, k, |results|))
  {
    var names := Names(file, format, k, |results|);
    var files := Pages(st, file, format, results, k).0.files;
    PagesCreated(st, file, format, results, k);
    PagesEditor(st, file, format, results, k);
    forall i | 0 <= i < |results| ensures names[i] in files && Success(files[names[i]]) == results[i] {
      PageWritten(st, file, format, results, k, i);
    }
    forall p | p !in names ensures (p in files <==> p in st.files) && (p in st.files ==> files[p] == st.files[p]) {
      PagesKeep(st, file, format, results, k, p);
    }
  }

  /**
   * A whole conversion whose page j + 1 is the first to fail, because its
   * image does not decode or its name is taken: it reports that page and
   * error, and the state is that of converting the first j pages.
   */
  lemma ConvertStops(st: State, file: TFile, format: string, pages: seq<PageImage>, j: nat)
    requires j < |pages| && forall i :: 0 <= i < j ==> PageBytes(pages[i]).Success?
    requires NamesFree(st.files, file, format, 1, j)
    requires PageBytes(pages[j]).Failure? || ImageFileName(file, j + 1, format) in st.files
    ensures Convert(st, file, format, Some(pages)) ==
      (Convert(st, file, format, Some(pages[..j])).0,
       PageFailed(j + 1, if PageBytes(pages[j]).Failure? then PageBytes(pages[j]).error else FileAlreadyExists))
  {
    var results := PageResults(pages);
    assert results[..j] == PageResults(pages[..j]);
    PagesStopAtFailure(st, file, format, results, 1, j);
  }

  /**
   * Converting the same document twice in the same format: the second run
   * stops at page 1, whose image the first run created, and writes nothing.
   */
  lemma ConvertTwice(st: State, file: TFile, format: string, pages: seq<PageImage>)
    requires pages != [] && forall i :: 0 <= i < |pages| ==> PageBytes(pages[i]).Success?
    requires NamesFree(st.files, file, format, 1, |pages|)
    ensures var st' := Convert(st, file, format, Some(pages)).0;
      Convert(st', file, format, Some(pages)) == (st', PageFailed(1, FileAlreadyExists))
  {
    var results := PageResults(pages);
    assert AllDecode(results);
    var st' := Pages(st, file, format, results, 1).0;
    PageWritten(st, file, format, results, 1, 0);
    assert results[0].Success? && ImageFileName(file, 1, format) in st'.files;
  }
}
