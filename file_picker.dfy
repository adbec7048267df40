/**
 * `PDFToImageModal.getItems`: the files offered for conversion are the
 * vault's files whose extension is `pdf`, in the order the vault lists them.
 */
module FilePicker {
  import opened Host

  predicate IsPdf(f: TFile) {
    f.extension == "pdf"
  }

  /** `vault.getFiles().filter(file => file.extension === "pdf")`. */
  function PdfFiles(files: seq<TFile>): (r: seq<TFile>)
    ensures forall f :: f in r <==> f in files && IsPdf(f)
    ensures |r| <= |files|
  {
    if files == [] then []
    else if IsPdf(files[0]) then [files[0]] + PdfFiles(files[1..])
    else PdfFiles(files[1..])
  }

  /** `a` is `b` with some elements left out and the rest kept in order. */
  predicate IsSubsequence(a: seq<TFile>, b: seq<TFile>)
    decreases |b|
  {
    if a == [] then true
    else if b == [] then false
    else if a[0] == b[0] then IsSubsequence(a[1..], b[1..])
    else IsSubsequence(a, b[1..])
  }

  /** The candidates keep the vault's order. */
  lemma {:induction false} PdfFilesIsSubsequence(files: seq<TFile>)
    ensures IsSubsequence(PdfFiles(files), files)
    decreases |files|
  {
    if files != [] {
      PdfFilesIsSubsequence(files[1..]);
      var r := PdfFiles(files);
      if IsPdf(files[0]) {
        assert r[0] == files[0] && r[1..] == PdfFiles(files[1..]);
      }
    }
  }

  /** Every pdf file is offered as often as the vault lists it; no other file is. */
  lemma {:induction false} PdfFilesMultiplicity(files: seq<TFile>, f: TFile)
    ensures multiset(PdfFiles(files))[f] == if IsPdf(f) then multiset(files)[f] else 0
    decreases |files|
  {
    if files != [] {
      PdfFilesMultiplicity(files[1..], f);
      assert files == [files[0]] + files[1..];
    }
  }

  /** Filtering a listing in two parts filters each part, in order. */
  lemma {:induction false} PdfFilesAppend(a: seq<TFile>, b: seq<TFile>)
    ensures PdfFiles(a + b) == PdfFiles(a) + PdfFiles(b)
    decreases |a|
  {
    if a != [] {
      assert (a + b)[0] == a[0] && (a + b)[1..] == a[1..] + b;
      PdfFilesAppend(a[1..], b);
    } else {
      assert a + b == b;
    }
  }
}
