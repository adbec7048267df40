/**
 * The plugin object and the two host services it changes: the vault, where
 * images are created, and the workspace, whose active editor receives the
 * links. `convertPDFToImages` is the page loop over them; the settings
 * methods keep the in-memory settings and the persisted record in step.
 */
module PluginModel {
  import opened Wrappers
  import opened Host
  import opened Base64
  import opened DataUri
  import opened FileNames
  import opened Settings
  import opened Conversion

  /** The vault's files by path, with their contents as bytes, and the paths created, in order. */
  class Vault {
    var files: map<string, seq<byte>>
    var created: seq<string>

    constructor (files: map<string, seq<byte>>)
      ensures this.files == files && created == []
    {
      this.files := files;
      created := [];
    }

    /**
     * `createBinary(path, data)`: a new file at `path` holding `data`. It
     * refuses (throws, in the host) when a file already exists at `path`,
     * and then nothing changes.
     */
    method CreateBinary(path: string, data: seq<byte>) returns (ok: bool)
      modifies this
      ensures ok <==> path !in old(files)
      ensures ok ==> files == old(files)[path := data] && created == old(created) + [path]
      ensures !ok ==> files == old(files) && created == old(created)
    {
      if path in files {
        return false;
      }
      files := files[path := data];
      created := created + [path];
      return true;
    }
  }

  /** The workspace: the editor of the active markdown view, if one is active. */
  class Workspace {
    var active: Option<Editor>

    constructor (active: Option<Editor>)
      ensures this.active == active
    {
      this.active := active;
    }

    /** `activeView.editor.replaceSelection(text)`. */
    method ReplaceSelection(text: string)
      requires active.Some?
      modifies this
      ensures active == Some(old(active).value.ReplaceSelection(text))
    {
      active := Some(active.value.ReplaceSelection(text));
    }
  }

  class Plugin {
    var settings: PluginSettings
    /** What the host's `loadData` returns and `saveData` replaces. */
    var saved: Option<SavedData>
    const vault: Vault
    const workspace: Workspace

    constructor (vault: Vault, workspace: Workspace, saved: Option<SavedData>)
      ensures this.vault == vault && this.workspace == workspace
      ensures this.saved == saved && settings == DEFAULT_SETTINGS
    {
      this.vault := vault;
      this.workspace := workspace;
      this.saved := saved;
      settings := DEFAULT_SETTINGS;
    }

    // -------------------------------------------------------------------
    // Settings
    // -------------------------------------------------------------------

    /** `loadSettings`: the defaults, overlaid with whatever was persisted. */
    method LoadSettings()
      modifies this`settings
      ensures settings == LoadedSettings(saved)
    {
      settings := Overlay(DEFAULT_SETTINGS, saved);
    }

    /** `saveSettings`: the whole current settings record is persisted. */
    method SaveSettings()
      modifies this`saved
      ensures saved == Some(ToSavedData(settings))
    {
      saved := Some(ToSavedData(settings));
    }

    /** The format dropdown's change handler. */
    method SetFormat(value: string)
      modifies this`settings, this`saved
      ensures settings == old(settings).(format := value)
      ensures saved == Some(ToSavedData(settings))
    {
      settings := settings.(format := value);
      SaveSettings();
    }

    /** The quality slider's change handler. */
    method SetQuality(value: real)
      modifies this`settings, this`saved
      ensures settings == old(settings).(quality := value)
      ensures saved == Some(ToSavedData(settings))
    {
      settings := settings.(quality := value);
      SaveSettings();
    }

    /** The width field's change handler, given the number parsed from the text. */
    method SetWidth(value: int)
      modifies this`settings, this`saved
      ensures settings == old(settings).(width := value)
      ensures saved == Some(ToSavedData(settings))
    {
      settings := settings.(width := value);
      SaveSettings();
    }

    // -------------------------------------------------------------------
    // Conversion
    // -------------------------------------------------------------------

    /** The state the conversion acts on. */
    function Current(): State
      reads vault, workspace
    {
      State(vault.files, vault.created, workspace.active)
    }

    /**
     * `generateImageFileName`: the image name of a page, in the current
     * format; the page number can be read back from it.
     */
    function GenerateImageFileName(file: TFile, pageNumber: nat): (r: string)
      reads this
      ensures r == ImageFileName(file, pageNumber, settings.format)
      ensures PageNumberOf(r, file, settings.format) == Some(pageNumber)
    {
      PageNumberOfImageFileName(file, pageNumber, settings.format);
      ImageFileName(file, pageNumber, settings.format)
    }

    /** `renderPageToImageData`: the data URI of the page, or no 2D context. */
    method RenderPageToImageData(page: PageImage) returns (r: Result<string, PageError>)
      ensures page.NoContext? ==> r == Failure(RenderingContextUnavailable)
      ensures page.Rendered? ==> r == Success(page.dataUri)
    {
      match page
      case NoContext => return Failure(RenderingContextUnavailable);
      case Rendered(uri) => return Success(uri);
    }

    /**
     * `saveImageFile`: the decoded image is created at `fileName`. Decoding
     * comes first, so a payload that does not decode fails with
     * `InvalidBase64` whether or not the name is taken; a decoded image whose
     * name is taken fails with `FileAlreadyExists`. A failure changes nothing.
     */
    method SaveImageFile(fileName: string, imageData: string) returns (err: Option<PageError>)
      modifies vault
      ensures BufferOf(imageData).Failure? ==> err == Some(InvalidBase64)
      ensures BufferOf(imageData).Success? && fileName in old(vault.files) ==> err == Some(FileAlreadyExists)
      ensures err.None? <==> BufferOf(imageData).Success? && fileName !in old(vault.files)
      ensures err.None? ==> vault.files == old(vault.files)[fileName := BufferOf(imageData).value]
      ensures err.None? ==> vault.created == old(vault.created) + [fileName]
      ensures err.Some? ==> vault.files == old(vault.files) && vault.created == old(vault.created)
    {
      var buffer := DataUriToBuffer(imageData);
      if buffer.Failure? {
        return Some(InvalidBase64);
      }
      var ok := vault.CreateBinary(fileName, buffer.value[..]);
      if !ok {
        return Some(FileAlreadyExists);
      }
      return None;
    }

    /** `insertImageLink`: the link goes to the active editor, when there is one. */
    method InsertImageLink(fileName: string)
      modifies workspace
      ensures workspace.active == InsertLink(old(workspace.active), fileName)
    {
      if workspace.active.Some? {
        workspace.ReplaceSelection(Link(fileName));
      }
    }

    /**
     * `convertPDFToImages(file)`: `document` is what the PDF library makes of
     * the file's bytes. Pages 1..N are handled in order; the first failure
     * ends the run.
     */
    method ConvertPdfToImages(file: TFile, document: Option<seq<PageImage>>) returns (outcome: Outcome)
      modifies vault, workspace
      ensures (Current(), outcome) == Convert(old(Current()), file, settings.format, document)
    {
      if document.None? {
        return OpenFailed;
      }
      var pages := document.value;
      var results := PageResults(pages);
      var numPages := |pages|;
      var pageNumber := 1;
      while pageNumber <= numPages
        invariant 1 <= pageNumber <= numPages + 1
        invariant Pages(Current(), file, settings.format, results[pageNumber - 1..], pageNumber)
          == Convert(old(Current()), file, settings.format, document)
      {
        var imageData := RenderPageToImageData(pages[pageNumber - 1]);
        if imageData.Failure? {
          return PageFailed(pageNumber, RenderingContextUnavailable);
        }
        var newFileName := GenerateImageFileName(file, pageNumber);
        var err := SaveImageFile(newFileName, imageData.value);
        if err.Some? {
          return PageFailed(pageNumber, err.value);
        }
        InsertImageLink(newFileName);
        assert results[pageNumber - 1..][1..] == results[pageNumber..];
        pageNumber := pageNumber + 1;
      }
      assert results[pageNumber - 1..] == [];
      return Done;
    }
  }
}
