# PDF to Image plugin: a Dafny model

The plugin converts every page of a PDF in a note vault into an image file. The images are meant to be written next to the PDF, and a link to each one is inserted into the active editor. This project models the logic that decides what is written where, and in what order. It proves properties of that logic.

- **Image names** (`FileNames`, with `Decimal`). The name is `<base>_p<page>.<format>`, with the parent folder's path and `/` in front unless the parent is the vault root. An unset parent gives the prefix `undefined/`, as the template string renders it.
- **Data-URI decoding** (`DataUri`, with `Base64`). The image payload is the second comma-separated field of the data URI. It is decoded the way the browser's `atob` does it: the forgiving-base64 decode of the HTML standard, over the alphabet of section 4 of RFC 4648. Each character code is then copied into a fresh byte array by a loop. A URI without a comma hands `undefined` to `atob`, which becomes the nine-character text "undefined" and is rejected.
- **The page loop** (`Conversion` states the behaviour as functions; `PluginModel` has the imperative classes). The vault is a map from path to bytes, plus the order in which paths were created. The workspace holds the active editor, if there is one. Pages 1..N are processed in order. Each page writes one file and inserts at most one link. A page fails when it cannot be rendered, when its image does not decode, or when its image name is already taken in the vault (`createBinary` refuses to replace a file). The first page that fails ends the run, and the pages already written stay.
- **Settings** (`Settings`, and the settings methods of `PluginModel.Plugin`). Loading spreads the persisted record over the defaults `jpeg` / `1` / `1600`, field by field. Every edit in the settings tab changes one field and persists the whole record.
- **File picker** (`FilePicker`). The candidates are the vault's files whose extension is `pdf`, in the vault's order.

Host services become explicit parameters or state:
- What the PDF library makes of a file is a parameter: the list of its pages' images, or nothing when the file cannot be opened.
- What the canvas encodes for one page is either a data URI or "no 2D context".
- The vault, the active editor and the persisted settings record are fields of classes.

The name test at `main.ts:95` reads `isRoot` without calling it, so as written the images of a PDF in a folder other than the root land in the vault root (see "## Findings"). The model states both the name as written and the corrected name, and the page loop uses the corrected name. For a file without a parent, the code writes images under `undefined/`, not at the vault root, and so does the model.

## Model

| member | source | states |
|---|---|---|
| Decimal.NatToString | main.ts:93 | a page number renders as a non-empty run of decimal digits with no leading zero |
| Decimal.DecimalValueOfNatToString | main.ts:93 | reading the rendered digits back gives the page number |
| Decimal.NatToStringInjective | main.ts:93 | distinct page numbers render to distinct texts |
| FileNames.ImageFileName | main.ts:92-98 | corrected name: the bare page file name in the vault root; in any other folder, or with no parent, the parent's path text (`undefined` if absent) and `/` in front of it |
| FileNames.ImageFileNameAsWritten | main.ts:92-98 | name as written: any parent at all gives the bare page file name, and no parent gives `undefined/` in front of it |
| FileNames.PageNumberOfImageFileName | main.ts:92-98 | the page number can be recovered from an image name, given the file and the format |
| FileNames.ImageFileNameInjective | main.ts:92-98 | with the file and the format fixed, distinct page numbers give distinct image names |
| FileNames.RootFileName | main.ts:93-96 | a file in the vault root gets exactly `basename + "_p" + page + "." + format`, with no `/` in it when neither the base name nor the format has one |
| FileNames.FolderFileName | main.ts:95-97 | a file in another folder gets that folder's path, then `/`, then the page file name; that `/` is the last one, so the image lands in the source's folder |
| FileNames.NoParentFileName | main.ts:95-97 | a file whose parent is unset gets the prefix `undefined/` |
| FileNames.AsWrittenDropsFolder | main.ts:95 | with `isRoot` read but not called, a file in a non-root folder gets the bare page file name, which differs from the intended name |
| FileNames.AsWrittenExample | main.ts:92-98 | page 3 of `notes/sub/doc.pdf` as png: intended `notes/sub/doc_p3.png`, as written `doc_p3.png` |
| Base64.Digit | main.ts:121 | each 6-bit value maps to a character of the base64 alphabet |
| Base64.DigitValue | main.ts:121 | each alphabet character maps to a 6-bit value |
| Base64.DigitValueOfDigit | main.ts:121 | the value of the digit of v is v |
| Base64.DigitOfDigitValue | main.ts:121 | the digit of the value of an alphabet character is that character |
| Base64.RemoveWhitespace | main.ts:121 | `atob` drops ASCII whitespace: nothing of it is left, and the text does not grow |
| Base64.RemoveWhitespaceAppend | main.ts:121 | dropping whitespace from a concatenation drops it from each part, the order of the parts kept |
| Base64.RemoveWhitespaceMultiplicity | main.ts:121 | every whitespace character goes, and every other character stays exactly as often as it occurs |
| Base64.RemovePadding | main.ts:121 | trailing `=` are removed, two when the input ends in `==` and one when it ends in a single `=`; nothing else is removed, and what is left is a prefix of the input |
| Base64.Canonical | main.ts:121 | what `atob` goes on to decode has no whitespace; when the length without whitespace is a multiple of 4, its one or two trailing `=` are removed, and otherwise nothing more is; no other character goes |
| Base64.DecodeDigits | main.ts:121 | n base64 digits decode to 3n/4 bytes, rounded down |
| Base64.Atob | main.ts:121 | `atob` fails exactly when what is left after dropping whitespace and padding has length 1 modulo 4 or holds a non-alphabet character; otherwise it yields 3/4 as many characters, each with a code below 256 |
| Base64.EncodeDigits | main.ts:83-86 | the unpadded encoding uses only alphabet characters, and its length is never 1 modulo 4, so `atob` accepts it |
| Base64.EncodeDigitsLength | main.ts:83-86 | the unpadded encoding has 4 characters per 3 bytes, plus 2 or 3 for a final 1 or 2 bytes |
| Base64.Encode | main.ts:83-86 | the padded encoding of n bytes has 4 * ceil(n/3) characters, a multiple of 4 |
| Base64.EncodeChars | main.ts:83-86 | every character of a padded encoding is an alphabet character or `=` |
| Base64.RemovePaddingOfEncode | main.ts:121 | removing the trailing `=` of a padded encoding leaves exactly its digits |
| Base64.DecodeEncodeDigits | main.ts:121 | decoding the digits of an encoding gives back the bytes |
| Base64.CanonicalOfEncode | main.ts:121 | from a padded encoding, `atob` strips exactly the padding |
| Base64.AtobEncode | main.ts:121 | `atob` of the base64 encoding of bytes b is the binary string of b (round trip) |
| DataUri.UpToComma | main.ts:121 | the field taken is a comma-free prefix of the rest of the URI |
| DataUri.AfterComma | main.ts:121 | there is a rest after a first comma exactly when the URI has a comma |
| DataUri.SecondField | main.ts:121 | `split(",")[1]` is undefined exactly when the URI has no comma; otherwise it is a comma-free field shorter than the URI |
| DataUri.AtobArgument | main.ts:121 | `atob` receives the text "undefined" when the URI has no comma, and otherwise a comma-free field |
| DataUri.Payload | main.ts:121 | every character of the decoded binary string has a code below 256 |
| DataUri.BufferOf | main.ts:120-129 | `dataURItoBuffer` fails exactly when `atob` fails; otherwise the buffer has one byte per decoded character, equal to its code, with nothing truncated |
| DataUri.SecondFieldOf | main.ts:121 | the payload is exactly the text between the first comma and the next comma or the end |
| DataUri.NoCommaFails | main.ts:121 | a URI without a comma makes decoding fail (`atob("undefined")`) |
| DataUri.OnlyPayloadMatters | main.ts:121 | the media-type prefix and any later fields never reach the buffer |
| DataUri.CopyCharCodes | main.ts:122-128 | the loop fills a fresh array of the string's length, byte i being character code i modulo 256 |
| DataUri.DataUriToBuffer | main.ts:120-129 | the result is the `atob` error, or a fresh array holding the character codes of the decoded payload |
| DataUri.CharCodesOfBinaryString | main.ts:125-126 | the character codes of a binary string are the bytes it was made of |
| DataUri.DataUriRoundTrip | main.ts:120-129 | for a media type without a comma, decoding `mediaType,` + base64(b) gives b |
| FilePicker.PdfFiles | main.ts:140-144 | a file is a candidate exactly when the vault lists it and its extension is `pdf` |
| FilePicker.PdfFilesIsSubsequence | main.ts:140-144 | the candidates are a subsequence of the vault's listing (order kept) |
| FilePicker.PdfFilesMultiplicity | main.ts:140-144 | each pdf file appears as often as in the listing, and no other file appears |
| FilePicker.PdfFilesAppend | main.ts:140-144 | filtering a concatenated listing is concatenating the filtered parts |
| Settings.Overlay | main.ts:113 | with nothing persisted, the base settings are kept |
| Settings.LoadedSettings | main.ts:18-22 | each loaded field is the persisted one when present, else `"jpeg"`, `1` or `1600` |
| Settings.ToSavedData | main.ts:117 | every field is persisted, so spreading the saved record over any settings gives back the saved settings |
| Host.Editor.ReplaceSelection | main.ts:108 | the selection is replaced by the text and the cursor ends just after it |
| Host.ReplaceSelectionTwice | main.ts:108 | two insertions at the cursor equal one insertion of both texts in order |
| Conversion.InsertLink | main.ts:105-110 | with an active editor, its text gains exactly `"![[" + name + "]]\n"` in place of the selection; with none, there is still none |
| Conversion.PageBytes | main.ts:64-66 | a page without a 2D context fails with `RenderingContextUnavailable`; a rendered page yields exactly the bytes `dataURItoBuffer` returns, and fails with `InvalidBase64` exactly when `atob` fails |
| Conversion.SavePage | main.ts:100-110 | after one page is saved and linked, its path holds its bytes, it is the last path created, and the active editor, if any, gets the link |
| Conversion.SavePageKeeps | main.ts:100-103 | saving a page adds exactly its path to the vault and changes no other path |
| Conversion.Pages | main.ts:62-68 | a run ends normally or at one of its pages; it creates one file per page before the page that ends it, and it removes no file |
| Conversion.Convert | main.ts:57-69 | only a document that cannot be opened reports that, and then nothing changes; a failing page is one of the document's pages; no file is removed |
| Conversion.NamesDistinct | main.ts:62-65 | the image names of the pages of one run are pairwise distinct |
| Conversion.PagesCreated | main.ts:62-68 | when every page decodes and no image name is taken, the run ends normally and creates the images of its pages, once each, in increasing page order |
| Conversion.PagesEditor | main.ts:62-68 | when every page decodes and no image name is taken, the editor receives all the links in page order; with no editor or no page it is unchanged |
| Conversion.PageWritten | main.ts:62-66 | when every page decodes and no image name is taken, the image of each page holds that page's bytes at the end of the run |
| Conversion.NotLaterName | main.ts:62-65 | a page's image name is not the name of any later page |
| Conversion.PagesKeep | main.ts:100-103 | a run changes no path other than its own pages' image names |
| Conversion.PagesStopAtFailure | main.ts:62-68 | the first failing page ends the run with its number and error (its own error if it does not render or decode, `FileAlreadyExists` if its name is taken), and no later page is written or linked |
| Conversion.PagesAll | main.ts:62-68 | the properties of a run whose pages all decode and whose names are all free, from any page number on, together |
| Conversion.ConvertNothing | main.ts:57-62 | a document that cannot be opened, or that has no pages, changes nothing and inserts nothing |
| Conversion.ConvertAll | main.ts:57-69 | for N pages that all decode, with none of their image names taken: exactly the images of pages 1..N are created, in order; each holds its page's bytes; other paths keep their content; all links are inserted in order |
| Conversion.ConvertStops | main.ts:57-69 | if the first failure is at page j+1 (its image does not decode, or its name is taken), the run reports page j+1 with that error and leaves the state of converting pages 1..j |
| Conversion.ConvertTwice | main.ts:57-69 | converting the same document again in the same format stops at page 1 with `FileAlreadyExists` and changes nothing |
| PluginModel.Vault.CreateBinary | main.ts:102 | it succeeds exactly when no file exists at the path; then the path holds the bytes and is appended to the creation order, and otherwise nothing changes |
| PluginModel.Workspace.ReplaceSelection | main.ts:108 | the active editor's selection is replaced by the text |
| PluginModel.Plugin.LoadSettings | main.ts:112-114 | the settings become the defaults overlaid with the persisted record |
| PluginModel.Plugin.SaveSettings | main.ts:116-118 | the persisted record becomes the whole current settings |
| PluginModel.Plugin.SetFormat | main.ts:180-183 | only the format changes, and the whole settings are persisted |
| PluginModel.Plugin.SetQuality | main.ts:193-196 | only the quality changes, and the whole settings are persisted |
| PluginModel.Plugin.SetWidth | main.ts:206-209 | only the width changes, and the whole settings are persisted |
| PluginModel.Plugin.GenerateImageFileName | main.ts:92-98 | the image name of a page is the corrected name in the current format, and the page number can be read back from it |
| PluginModel.Plugin.RenderPageToImageData | main.ts:71-90 | with no 2D context the page fails with that error; otherwise its data URI is returned |
| PluginModel.Plugin.SaveImageFile | main.ts:100-103 | a payload that does not decode fails with `InvalidBase64`; a decoded image whose name is taken fails with `FileAlreadyExists`; otherwise the file is created with the decoded bytes; a failure leaves the vault unchanged |
| PluginModel.Plugin.InsertImageLink | main.ts:105-110 | the active editor, if any, gets the link; otherwise nothing changes |
| PluginModel.Plugin.ConvertPdfToImages | main.ts:57-69 | the `for pageNumber` loop leaves the vault, the creation order and the editor exactly as `Conversion.Convert` says, and returns its outcome |

## Findings

| source | as written | input that shows it | evidently intended | confidence | as-written member | corrected member |
|---|---|---|---|---|---|---|
| main.ts:95 | `file.parent?.isRoot` names the folder's `isRoot` method without calling it. A function object is truthy, so every file with a parent gets the bare name. | `doc.pdf` in folder `notes/sub` (not the root), page 3, format `png`, gives `doc_p3.png` | `file.parent?.isRoot()`, giving `notes/sub/doc_p3.png`: the image goes next to its PDF | medium; not executed; it assumes the host declares `isRoot` as a method, and that declaration is not part of this model | FileNames.AsWrittenDropsFolder | FileNames.FolderFileName |

`FileNames.ImageFileNameAsWritten` is the name as written. `FileNames.ImageFileName` is the corrected name, and the rest of the model uses it. `Folder.isRoot` stands for the value `isRoot()` returns.

## Left out

- PDF parsing and rendering (the PDF library's `getDocument`, `getPage`, `getViewport` at scale 2, `render`, and the worker registered from a CDN URL) is not modelled. It is a foreign library and a network download. A document is given as its page images, or as "cannot be opened".
- `vault.readBinary` is not modelled. Its bytes only go to the PDF library, so the parameter `document` stands for both steps.
- Canvas allocation and `toDataURL` are platform graphics. Each page's encoded image is an input: a data URI, or the "no 2D context" failure. `Base64.Encode` describes only the encoding such a URI carries.
- `quality` is a floating-point number in [0,1] that is only passed on to the encoder. It is carried as a `real` and never interpreted. The slider step of 0.1 is not modelled.
- `parseInt` of the width text (including its NaN result) is not modelled. `SetWidth` takes the parsed integer. The width is stored and never used in rendering.
- A persisted record whose fields hold values of another JSON type, or `null`, is not modelled. Neither are extra keys, which the spread would carry into the settings.
- UI wiring is left out: the command registration, the fuzzy-search modal (`getItemText` returns the base name; `onChooseItem` calls the conversion), and the settings tab's layout.
- `async`/`await` suspension is left out, and so is anything that could interleave with a run. The model keeps a run's active editor and format fixed, so it does not capture the user switching editors or changing the format in the middle of a run.
- `PluginModel.Vault.CreateBinary` fails only when a file already exists at the path. Other host failures of a write (an invalid path, a missing folder, a full disk) are not modelled. `Conversion.ConvertAll` and `Conversion.PagesAll` assume that every write whose path is free succeeds.
- `PluginModel.Plugin.GenerateImageFileName` and `Conversion.Pages`: the page loop uses the corrected name `FileNames.ImageFileName`, not the name as written (`FileNames.ImageFileNameAsWritten`). For `notes/sub/doc.pdf`, the code as written writes `doc_p1.png` in the vault root where the model writes `notes/sub/doc_p1.png`. `FileNames.AsWrittenDropsFolder` states the difference.
- `Decimal.NatToString` renders all page numbers in plain decimal. JavaScript switches to exponent notation from 10^21, and such page counts are not modelled.
