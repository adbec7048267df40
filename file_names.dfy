/**
 * `generateImageFileName`: where the image of one page is written. The name
 * is the source's base name, `_p`, the page number and `.` plus the format,
 * prefixed by the source's folder unless that folder is the vault root.
 */
module FileNames {
  import opened Wrappers
  import opened Host
  import opened Decimal

  /** The name of the image of page `pageNumber`, without any folder. */
  function PageFileName(basename: string, pageNumber: nat, format: string): string {
    basename + "_p" + NatToString(pageNumber) + "." + format
  }

  /** `file.parent?.isRoot()`: an absent parent reads as `undefined`, which is false. */
  predicate ParentIsRoot(parent: Option<Folder>) {
    parent.Some? && parent.value.isRoot
  }

  /** `${file.parent?.path}`: an absent parent renders as the text "undefined". */
  function ParentPathText(parent: Option<Folder>): string {
    match parent
    case Some(folder) => folder.path
    case None => "undefined"
  }

  /** What is put in front of the page file name. */
  function FolderPrefix(parent: Option<Folder>): string {
    if ParentIsRoot(parent) then "" else ParentPathText(parent) + "/"
  }

  /**
   * The path the image of page `pageNumber` of `file` is written to: the
   * bare page file name in the vault root, and otherwise the parent's path
   * text ("undefined" when there is no parent) and `/` in front of it.
   */
  function ImageFileName(file: TFile, pageNumber: nat, format: string): (r: string)
    ensures ParentIsRoot(file.parent) ==> r == PageFileName(file.basename, pageNumber, format)
    ensures !ParentIsRoot(file.parent) ==>
      r == ParentPathText(file.parent) + "/" + PageFileName(file.basename, pageNumber, format)
  {
    FolderPrefix(file.parent) + PageFileName(file.basename, pageNumber, format)
  }

  // ---------------------------------------------------------------------
  // Reading a page number back from a name
  // ---------------------------------------------------------------------

  predicate AllDigits(s: string) {
    forall i :: 0 <= i < |s| ==> IsDigit(s[i])
  }

  /**
   * The page number whose image `name` is, for images of `file` in `format`,
   * or None when `name` is not such an image's name.
   */
  function PageNumberOf(name: string, file: TFile, format: string): Option<nat> {
    var head := FolderPrefix(file.parent) + file.basename + "_p";
    var tail := "." + format;
    if |name| < |head| + |tail| || name[..|head|] != head || name[|name| - |tail|..] != tail then None
    else
      var digits := name[|head|..|name| - |tail|];
      if digits == [] || !AllDigits(digits) then None else Some(DecimalValue(digits))
  }

  /** Every image name tells which page it holds. */
  lemma PageNumberOfImageFileName(file: TFile, pageNumber: nat, format: string)
    ensures PageNumberOf(ImageFileName(file, pageNumber, format), file, format) == Some(pageNumber)
  {
    var name := ImageFileName(file, pageNumber, format);
    var head := FolderPrefix(file.parent) + file.basename + "_p";
    var tail := "." + format;
    var digits := NatToString(pageNumber);
    assert name == head + digits + tail;
    assert name[..|head|] == head;
    assert name[|name| - |tail|..] == tail;
    assert name[|head|..|name| - |tail|] == digits;
    DecimalValueOfNatToString(pageNumber);
  }

  /** With the file and the format fixed, distinct pages get distinct names. */
  lemma ImageFileNameInjective(file: TFile, j: nat, k: nat, format: string)
    requires ImageFileName(file, j, format) == ImageFileName(file, k, format)
    ensures j == k
  {
    PageNumberOfImageFileName(file, j, format);
    PageNumberOfImageFileName(file, k, format);
  }

  // ---------------------------------------------------------------------
  // Where the name puts the image
  // ---------------------------------------------------------------------

  /**
   * A file in the vault root gets the bare page file name; when neither the
   * base name nor the format holds a `/`, the name holds none either.
   */
  lemma RootFileName(file: TFile, pageNumber: nat, format: string)
    requires file.parent.Some? && file.parent.value.isRoot
    requires '/' !in file.basename && '/' !in format
    ensures ImageFileName(file, pageNumber, format) == PageFileName(file.basename, pageNumber, format)
    ensures '/' !in ImageFileName(file, pageNumber, format)
  {
    var digits := NatToString(pageNumber);
    var name := PageFileName(file.basename, pageNumber, format);
    assert name == file.basename + "_p" + digits + "." + format;
    forall i | 0 <= i < |name| ensures name[i] != '/' {
      if |file.basename| + 2 <= i < |file.basename| + 2 + |digits| {
        assert name[i] == digits[i - |file.basename| - 2];
      }
    }
  }

  /**
   * A file in another folder gets that folder's path and a `/` in front of
   * the page file name, and (when neither the base name nor the format holds
   * a `/`) that `/` is the last one: the image lands in the source's folder.
   */
  lemma FolderFileName(file: TFile, pageNumber: nat, format: string)
    requires file.parent.Some? && !file.parent.value.isRoot
    requires '/' !in file.basename && '/' !in format
    ensures var r := ImageFileName(file, pageNumber, format);
      var n := |file.parent.value.path|;
      |r| > n && r[..n] == file.parent.value.path && r[n] == '/' &&
      r[n + 1..] == PageFileName(file.basename, pageNumber, format) &&
      '/' !in r[n + 1..]
  {
    var root := file.(parent := Some(file.parent.value.(isRoot := true)));
    RootFileName(root, pageNumber, format);
    var r := ImageFileName(file, pageNumber, format);
    var n := |file.parent.value.path|;
    assert r == file.parent.value.path + "/" + PageFileName(file.basename, pageNumber, format);
    assert r[n + 1..] == PageFileName(file.basename, pageNumber, format);
  }

  /**
   * A file whose parent is unset gets the prefix "undefined/": the template
   * string renders the absent path as "undefined".
   */
  lemma NoParentFileName(file: TFile, pageNumber: nat, format: string)
    requires file.parent.None?
    ensures ImageFileName(file, pageNumber, format) == "undefined/" + PageFileName(file.basename, pageNumber, format)
  {
  }

  // ---------------------------------------------------------------------
  // The test as it is written
  // ---------------------------------------------------------------------

  /**
   * The ternary of `generateImageFileName` tests `file.parent?.isRoot`
   * without calling it. The host declares `isRoot` as a method, so the test
   * reads a function object, which is truthy whenever the parent exists.
   */
  predicate ParentIsRootAsWritten(parent: Option<Folder>) {
    parent.Some?
  }

  /**
   * `generateImageFileName` with the uncalled `isRoot` test: any parent at
   * all gives the bare page file name, and no parent gives "undefined/".
   */
  function ImageFileNameAsWritten(file: TFile, pageNumber: nat, format: string): (r: string)
    ensures file.parent.Some? ==> r == PageFileName(file.basename, pageNumber, format)
    ensures file.parent.None? ==> r == "undefined/" + PageFileName(file.basename, pageNumber, format)
  {
    var name := PageFileName(file.basename, pageNumber, format);
    if ParentIsRootAsWritten(file.parent) then name else ParentPathText(file.parent) + "/" + name
  }

  /**
   * As written, every file in a folder other than the root gets a name
   * without its folder: its images land in the vault root.
   */
  lemma AsWrittenDropsFolder(file: TFile, pageNumber: nat, format: string)
    requires file.parent.Some? && !file.parent.value.isRoot
    ensures ImageFileNameAsWritten(file, pageNumber, format) == PageFileName(file.basename, pageNumber, format)
    ensures ImageFileNameAsWritten(file, pageNumber, format) != ImageFileName(file, pageNumber, format)
  {
    var name := PageFileName(file.basename, pageNumber, format);
    assert |ImageFileName(file, pageNumber, format)| == |file.parent.value.path| + 1 + |name|;
  }

  /** The concrete case: page 3 of `notes/sub/doc.pdf` as PNG. */
  lemma AsWrittenExample()
    ensures var file := TFile("doc", "pdf", Some(Folder("notes/sub", false)));
      ImageFileName(file, 3, "png") == "notes/sub/doc_p3.png" &&
      ImageFileNameAsWritten(file, 3, "png") == "doc_p3.png"
  {
    assert NatToString(3) == "3";
  }
}
