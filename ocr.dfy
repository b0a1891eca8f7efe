/** Page-wise OCR of a PDF (ocr_utility.py, lines 14-50). Rasterisation, saving a
    page image, Tesseract and file removal are outside calls: each is given as its
    outcome, and the output directory is the set of file names it holds. */
module Ocr {
  import opened Strings

  /** What Tesseract makes of one saved page image. */
  datatype OcrOutcome = Recognized(text: string) | OcrFailed

  /** The outcomes of the outside calls made for one page: `image.save`, the OCR of
      the saved file, and `os.remove`. */
  datatype PageOutcome = PageOutcome(saveSucceeds: bool, ocr: OcrOutcome, removeSucceeds: bool)

  /** `pdf2image.convert_from_path`: it fails, or it yields one outcome per page. */
  datatype Rasterization = RasterFailed | Rasterized(pages: seq<PageOutcome>)

  /** The string that `process_pdf_with_ocr` joins page texts with. */
  const PageSeparator: string := "\n\n"

  /** The temporary file name for page `n` (counted from 1): `page_{n}.png`. */
  function PageName(n: nat): string
  {
    "page_" + NatToString(n) + ".png"
  }

  /** Different pages get different temporary file names. */
  lemma PageNameInjective(a: nat, b: nat)
    requires PageName(a) == PageName(b)
    ensures a == b
  {
    var s := PageName(a);
    assert s[5..|s| - 4] == NatToString(a);
    assert PageName(b)[5..|PageName(b)| - 4] == NatToString(b);
    NatToStringInjective(a, b);
  }

  /** The names used for the first `k` pages. */
  function PageNames(k: nat): set<string>
  {
    set n | 1 <= n <= k :: PageName(n)
  }

  /** Page `k + 1` adds its own name to those of the pages before it. */
  lemma PageNamesStep(k: nat)
    ensures PageNames(k + 1) == PageNames(k) + {PageName(k + 1)}
  {
  }

  /** Page `n`'s name belongs to the names of the first `k` pages exactly when `n <= k`. */
  lemma PageNameIn(n: nat, k: nat)
    requires 1 <= n
    ensures PageName(n) in PageNames(k) <==> n <= k
  {
    if PageName(n) in PageNames(k) {
      var m :| 1 <= m <= k && PageName(m) == PageName(n);
      PageNameInjective(m, n);
    }
  }

  /** `k` pages use exactly `k` distinct temporary file names. */
  lemma {:induction false} PageNamesCount(k: nat)
    ensures |PageNames(k)| == k
  {
    if k == 0 {
      assert PageNames(0) == {};
    } else {
      PageNamesCount(k - 1);
      PageNamesStep(k - 1);
      PageNameIn(k, k - 1);
    }
  }

  /** The output directory: the names of the files it holds. */
  class Directory {
    var files: set<string>

    constructor (initial: set<string>)
      ensures files == initial
    {
      files := initial;
    }

    /** `image.save(path)`: on success the file exists afterwards; on failure
        nothing is written. */
    method Save(name: string, succeeds: bool) returns (ok: bool)
      modifies this
      ensures ok == succeeds
      ensures files == if ok then old(files) + {name} else old(files)
    {
      ok := succeeds;
      if ok {
        files := files + {name};
      }
    }

    /** `os.remove(path)`: fails on a missing file or when the outside call fails;
        on success the file is gone. */
    method Remove(name: string, succeeds: bool) returns (ok: bool)
      modifies this
      ensures ok == (succeeds && name in old(files))
      ensures files == if ok then old(files) - {name} else old(files)
    {
      ok := succeeds && name in files;
      if ok {
        files := files - {name};
      }
    }
  }

  /** The text a page contributes: what Tesseract recognised, or "" when it failed. */
  function OcrText(outcome: OcrOutcome): string
  {
    match outcome
    case Recognized(t) => t
    case OcrFailed => ""
  }

  /** `process_image_with_ocr`: opening a missing image or a failing OCR both yield
      "" instead of an error; otherwise the recognised text is returned. */
  method ProcessImageWithOcr(dir: Directory, path: string, outcome: OcrOutcome) returns (text: string)
    ensures path in dir.files && outcome.Recognized? ==> text == outcome.text
    ensures path !in dir.files || outcome.OcrFailed? ==> text == ""
  {
    if path !in dir.files {
      return "";
    }
    match outcome {
      case Recognized(t) => text := t;
      case OcrFailed => text := "";
    }
  }

  /** A page goes through the loop without raising. */
  predicate PageOk(page: PageOutcome)
  {
    page.saveSucceeds && page.removeSucceeds
  }

  /** The index of the first page whose save or removal raises, or the page count. */
  function FirstFailure(pages: seq<PageOutcome>): (f: nat)
    ensures f <= |pages|
    ensures forall j :: 0 <= j < f ==> PageOk(pages[j])
    ensures f < |pages| ==> !PageOk(pages[f])
  {
    if |pages| == 0 || !PageOk(pages[0]) then 0 else 1 + FirstFailure(pages[1..])
  }

  /** The call reaches the join: rasterisation and every page go through. */
  predicate Succeeds(pdf: Rasterization)
  {
    pdf.Rasterized? && forall j :: 0 <= j < |pdf.pages| ==> PageOk(pdf.pages[j])
  }

  /** The texts of the pages, in page order. */
  function PageTexts(pages: seq<PageOutcome>): (texts: seq<string>)
    ensures |texts| == |pages|
    ensures forall j :: 0 <= j < |pages| ==> texts[j] == OcrText(pages[j].ocr)
  {
    seq(|pages|, j requires 0 <= j < |pages| => OcrText(pages[j].ocr))
  }

  /** What `process_pdf_with_ocr` returns: the page texts joined by a blank line,
      or "" once anything raises. */
  function DocumentText(pdf: Rasterization): string
  {
    if Succeeds(pdf) then Join(PageSeparator, PageTexts(pdf.pages)) else ""
  }

  /** The files of the output directory once the call returns, from those before:
      the pages that went through have had their files removed, and a page whose
      removal raised leaves its file behind. */
  function FilesAfter(pdf: Rasterization, before: set<string>): set<string>
  {
    match pdf
    case RasterFailed => before
    case Rasterized(pages) =>
      var f := FirstFailure(pages);
      var left := if f < |pages| && pages[f].saveSucceeds then {PageName(f + 1)} else {};
      (before - PageNames(f)) + left
  }

  /** `process_pdf_with_ocr(pdf_path, output_dir)`: for each page, save
      `page_{i+1}.png`, OCR it, append the text, remove the file; join the texts
      with "\n\n". Any raise from rasterising, saving or removing returns "". */
  method ProcessPdfWithOcr(pdf: Rasterization, outputDir: Directory) returns (text: string)
    modifies outputDir
    ensures text == DocumentText(pdf)
    ensures outputDir.files == FilesAfter(pdf, old(outputDir.files))
  {
    if pdf.RasterFailed? {
      return "";
    }
    var images := pdf.pages;
    var allText: seq<string> := [];
    for i := 0 to |images|
      invariant |allText| == i
      invariant forall j :: 0 <= j < i ==> allText[j] == OcrText(images[j].ocr)
      invariant forall j :: 0 <= j < i ==> PageOk(images[j])
      invariant outputDir.files == old(outputDir.files) - PageNames(i)
    {
      var tempImagePath := PageName(i + 1);
      PageNameIn(i + 1, i);
      var saved := outputDir.Save(tempImagePath, images[i].saveSucceeds);
      if !saved {
        return "";
      }
      var pageText := ProcessImageWithOcr(outputDir, tempImagePath, images[i].ocr);
      allText := allText + [pageText];
      var removed := outputDir.Remove(tempImagePath, images[i].removeSucceeds);
      if !removed {
        return "";
      }
      PageNamesStep(i);
    }
    assert allText == PageTexts(images);
    text := Join(PageSeparator, allText);
  }

  /** How a call that may raise out of the caller ends: it returns a text, or the
      exception reaches the caller. */
  datatype CallOutcome = Returned(text: string) | Raised

  /** With `output_dir` left out, the call first creates a fresh empty directory
      with `tempfile.mkdtemp()`. That call stands before the `try`, so when it
      raises, the exception reaches the caller instead of becoming "". */
  method ProcessPdfWithOcrInTempDir(pdf: Rasterization, mkdtempSucceeds: bool) returns (r: CallOutcome)
    ensures r.Raised? <==> !mkdtempSucceeds
    ensures r.Returned? ==> r.text == DocumentText(pdf)
  {
    if !mkdtempSucceeds {
      return Raised;
    }
    var dir := new Directory({});
    var text := ProcessPdfWithOcr(pdf, dir);
    r := Returned(text);
  }

  /** A PDF with no pages gives "" and touches no file. */
  lemma NoPagesGiveEmptyText(before: set<string>)
    ensures DocumentText(Rasterized([])) == ""
    ensures FilesAfter(Rasterized([]), before) == before
  {
  }

  /** On success, the text holds k - 1 separators for k >= 1 pages, even when some
      page texts are empty, and page `j`'s text stands at its offset in page order,
      followed by the separator unless it is the last page. */
  lemma {:induction false} SuccessJoinsPagesInOrder(pdf: Rasterization, j: nat)
    requires Succeeds(pdf) && j < |pdf.pages|
    ensures var texts := PageTexts(pdf.pages);
            |DocumentText(pdf)| == TotalLength(texts) + (|texts| - 1) * |PageSeparator|
    ensures var texts, off := PageTexts(pdf.pages), PartOffset(PageSeparator, PageTexts(pdf.pages), j);
            off + |texts[j]| <= |DocumentText(pdf)| &&
            DocumentText(pdf)[off..off + |texts[j]|] == OcrText(pdf.pages[j].ocr)
    ensures var texts := PageTexts(pdf.pages);
            var end := PartOffset(PageSeparator, texts, j) + |texts[j]|;
            j + 1 < |texts| ==> end + 2 <= |DocumentText(pdf)| && DocumentText(pdf)[end..end + 2] == PageSeparator
  {
    var texts := PageTexts(pdf.pages);
    JoinLength(PageSeparator, texts);
    JoinPartAt(PageSeparator, texts, j);
    if j + 1 < |texts| {
      JoinSeparatorAfter(PageSeparator, texts, j);
    }
  }

  /** A page whose OCR fails does not abort the document: the call goes through
      exactly when it would with that page recognised as blank, and gives the same
      text. */
  lemma OcrFailureReadsAsBlankPage(pdf: Rasterization, j: nat)
    requires pdf.Rasterized? && j < |pdf.pages| && pdf.pages[j].ocr.OcrFailed?
    ensures Succeeds(pdf) <==> Succeeds(Rasterized(pdf.pages[j := pdf.pages[j].(ocr := Recognized(""))]))
    ensures DocumentText(pdf)
         == DocumentText(Rasterized(pdf.pages[j := pdf.pages[j].(ocr := Recognized(""))]))
  {
    var pages' := pdf.pages[j := pdf.pages[j].(ocr := Recognized(""))];
    assert PageTexts(pdf.pages) == PageTexts(pages');
  }

  /** Any raise while rasterising, saving or removing makes the result "". */
  lemma AnyFailureGivesEmptyText(pdf: Rasterization, j: nat)
    requires pdf.RasterFailed? || (j < |pdf.pages| && !PageOk(pdf.pages[j]))
    ensures DocumentText(pdf) == ""
  {
  }

  /** On success no page file written by the call remains, and no other file is
      touched: exactly the names `page_1.png` ... `page_k.png` are gone. */
  lemma SuccessLeavesNoPageFile(pdf: Rasterization, before: set<string>)
    requires Succeeds(pdf)
    ensures forall n :: 1 <= n <= |pdf.pages| ==> PageName(n) !in FilesAfter(pdf, before)
    ensures FilesAfter(pdf, before) == before - PageNames(|pdf.pages|)
  {
  }

  /** On a failing page the files of the pages before it are gone, and at most that
      page's own file is left over; the call creates no other file. */
  lemma FailureLeavesAtMostOnePageFile(pdf: Rasterization, before: set<string>)
    requires pdf.Rasterized? && !Succeeds(pdf)
    ensures var f := FirstFailure(pdf.pages);
            f < |pdf.pages| &&
            FilesAfter(pdf, before) <= before + {PageName(f + 1)} &&
            (forall n :: 1 <= n <= f ==> PageName(n) !in FilesAfter(pdf, before))
  {
    var f := FirstFailure(pdf.pages);
    assert f < |pdf.pages|;
    forall n | 1 <= n <= f ensures PageName(n) !in FilesAfter(pdf, before) {
      PageNameIn(n, f);
      PageNameIn(f + 1, f);
    }
  }

  /** When the first page that raises had been saved, so that its `os.remove`
      raised, the call returns "" and that page's file stays in the directory. */
  lemma RemovalFailureLeavesPageFile(pdf: Rasterization, before: set<string>)
    requires pdf.Rasterized? && FirstFailure(pdf.pages) < |pdf.pages|
    requires pdf.pages[FirstFailure(pdf.pages)].saveSucceeds
    ensures !pdf.pages[FirstFailure(pdf.pages)].removeSucceeds
    ensures DocumentText(pdf) == ""
    ensures PageName(FirstFailure(pdf.pages) + 1) in FilesAfter(pdf, before)
  {
  }
}
