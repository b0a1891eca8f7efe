# DeepDoc-RAG: reasoning-trace split and page-wise OCR

DeepDoc-RAG answers questions about an uploaded document. A retrieval chain calls a
language model, and the model's answer may begin with a reasoning trace wrapped in
`<think>` ... `</think>`. Most of the repository wraps outside libraries
(Streamlit, LangChain, Chroma, Groq, Tesseract). This project models the two pieces
of logic that are the repository's own:

- **The think-tag split** (`main.py`, lines 50-53). `find` locates the first
  `<think>` and the first `</think>`. When both are found, the trace is the Python
  slice `ans[start + 7 : end]`; otherwise it is `""`. The shown answer is
  `ans.replace("<think>" + trace + "</think>", "")`. Module `ThinkSplit`
  (`think_split.dfy`) defines this as `SplitThink`. Module `Strings`
  (`strings.dfy`) models the Python built-ins it uses: `find`, slicing with its
  clamping and empty result for crossed bounds, `replace` with an empty
  replacement (left to right, non-overlapping, every occurrence), `join`, and
  `str(n)`.
- **Page-wise OCR** (`ocr_utility.py`, lines 14-50). This is module `Ocr`
  (`ocr.dfy`). `process_pdf_with_ocr` loops over the rasterised pages. For each
  page it saves `page_{i+1}.png` in the output directory, OCRs that file, appends
  the text and removes the file. It returns the texts joined by `"\n\n"`, and
  `""` if anything inside its `try` raises. With no output directory given it
  first calls `tempfile.mkdtemp()`, which stands before the `try`, so an error
  there reaches the caller. `process_image_with_ocr` turns any failure (a missing
  file, a Tesseract error) into `""`. The output directory is a `Directory`
  object whose `files` set the loop updates in place.
  - Outside calls become inputs. Rasterisation is a `Rasterization` value: it
    either fails or gives one `PageOutcome` per page. A `PageOutcome` says
    whether `image.save` succeeds, what Tesseract returns, and whether
    `os.remove` succeeds.
  - The method `ProcessPdfWithOcr` is proved against two specification
    functions. `DocumentText` gives the returned text. `FilesAfter` gives the
    directory's contents after the call.

Behaviour of the code worth knowing:

- The trace ends at the first `</think>` in the whole answer, not at the first one
  after `<think>`. When `</think>` comes first, the trace is `""`, and every
  `"<think></think>"` is removed from the answer (`ReversedMarkersGiveEmptyTrace`).
- `replace` removes every copy of the delimited span, wherever it occurs
  (`CleanAnswerRemovesEveryCopy`).
- OCR failures raise nothing. They become `""`, and a page whose OCR fails reads
  exactly like a blank page (`OcrFailureReadsAsBlankPage`).
- When `image.save` or `os.remove` raises, the loop stops and the page file that
  was saved stays in the directory (`RemovalFailureLeavesPageFile`,
  `FailureLeavesAtMostOnePageFile`).
- Neither `main.py` nor `rag_utility.py` calls the OCR functions:
  `process_document_to_chroma_db` loads PDFs through `UnstructuredPDFLoader`.

## Model

| member | source | states |
|---|---|---|
| Strings.Find | main.py:50-51 | `find` returns -1 or an index within the text, and any index it returns is one where the pattern occurs |
| Strings.FindSpec | main.py:50-51 | `find` returns -1 exactly when the pattern does not occur, and no occurrence lies before the index it returns |
| Strings.FindIsFirst | main.py:50-51 | the first occurrence fully determines the result of `find` |
| Strings.Slice | main.py:52 | the Python slice `s[i:j]` never fails and is never longer than `s`; it equals `s[i..j]` for in-range bounds and is empty when the bounds cross |
| Strings.RemoveAll | main.py:53 | `str.replace(pat, "")`: left to right, every non-overlapping occurrence cut out, the text unchanged for an empty pattern. Its properties are stated by `RemoveAllLength`, `RemoveAllAbsent` and `RemoveAllIsJoinOfPieces` |
| Strings.RemoveAllLength | main.py:53 | `replace(pat, "")` never lengthens the text, and shortens it by at least `len(pat)` when `pat` occurs |
| Strings.RemoveAllAbsent | main.py:53 | `replace(pat, "")` leaves the text unchanged when `pat` does not occur |
| Strings.SplitOnRoundTrip | main.py:53 | the reference pieces (the text between leftmost non-overlapping occurrences), joined back with the pattern, give the original text |
| Strings.SplitOnPiecesFree | main.py:53 | no reference piece contains the pattern |
| Strings.RemoveAllIsJoinOfPieces | main.py:53 | `replace(pat, "")` is the concatenation of the reference pieces: every leftmost non-overlapping occurrence is removed, not only the first |
| Strings.Join | ocr_utility.py:47 | `sep.join(parts)`: no parts give `""` and one part gives that part. Its layout is stated by `JoinLength`, `JoinPartAt` and `JoinSeparatorAfter` |
| Strings.JoinLength | ocr_utility.py:47 | joining k >= 1 texts adds exactly k - 1 separators to the total length, even when some texts are empty |
| Strings.JoinPartAt | ocr_utility.py:47 | each joined text appears in order at its offset |
| Strings.JoinSeparatorAfter | ocr_utility.py:47 | a separator follows every joined text but the last |
| Strings.NatToString | ocr_utility.py:37 | `str(n)` for a page number: a non-empty string of decimal digits. `NatToStringRoundTrip` and `NatToStringInjective` state that it reads back to n |
| Strings.NatToStringRoundTrip | ocr_utility.py:37 | reading the decimal text of n back gives n |
| Strings.NatToStringInjective | ocr_utility.py:37 | different page numbers have different decimal texts |
| ThinkSplit.SplitThink | main.py:50-53 | neither the shown answer nor the trace is longer than the raw answer. The replace target `<think>` + trace + `</think>` of line 53 is its helper `Target` |
| ThinkSplit.EmptyTarget | main.py:53 | with an empty trace the replace target is `<think></think>` |
| ThinkSplit.MissingMarkerKeepsAnswer | main.py:50-53 | if `<think>` or `</think>` is missing, `<think></think>` cannot occur, the trace is `""` and the answer is unchanged |
| ThinkSplit.NoCloseInsideOpen | main.py:50-52 | no `</think>` starts inside a `<think>` |
| ThinkSplit.MarkersDisjoint | main.py:50-52 | the first `</think>` comes either before the first `<think>` or at least 7 characters after it, so the slice from `start + 7` is well placed |
| ThinkSplit.SpanIsTarget | main.py:52-53 | a `<think>` and a later `</think>` delimit one copy of the replace target built from the text between them |
| ThinkSplit.InOrderMarkersExtractBetween | main.py:50-53 | with both markers in order, the trace is exactly the text strictly between them, the span is a copy of the target, and the answer is shorter by at least 15 plus the trace length |
| ThinkSplit.ReversedMarkersGiveEmptyTrace | main.py:52-53 | when the first `</think>` comes before the first `<think>`, the trace is `""` and the answer has every `<think></think>` removed |
| ThinkSplit.TraceHasNoCloseMarker | main.py:51-52 | the trace never contains `</think>` |
| ThinkSplit.CleanAnswerRemovesEveryCopy | main.py:53 | the shown answer is the raw answer with every leftmost non-overlapping copy of the delimited trace cut out |
| ThinkSplit.LeadingTraceMarkers | main.py:50-51 | in `<think>` + trace + `</think>` + rest with no `</think>` in the trace, `find` puts the first `<think>` at 0 and the first `</think>` right after the trace |
| ThinkSplit.LeadingTraceSplitsOff | main.py:50-53 | an answer made of `<think>` + trace + `</think>` + rest, where the trace has no `</think>` and the rest has no copy of the span, splits into exactly that trace and that rest |
| ThinkSplit.TraceThenAnswerExample | main.py:50-53 | `"<think>step1</think>Paris is the capital."` splits into trace `"step1"` and answer `"Paris is the capital."` |
| Ocr.PageName | ocr_utility.py:37 | the file name `page_{n}.png`. `PageNameInjective`, `PageNameIn` and `PageNamesCount` state that the pages' names are distinct |
| Ocr.PageNameInjective | ocr_utility.py:37 | different pages get different `page_{n}.png` names |
| Ocr.PageNameIn | ocr_utility.py:37 | page n's name is among the names of pages 1..k exactly when n <= k |
| Ocr.PageNamesCount | ocr_utility.py:35-37 | k pages use exactly k distinct temporary file names |
| Ocr.Directory.Save | ocr_utility.py:38 | a successful `image.save` adds the file; a failed one leaves the directory as it was |
| Ocr.Directory.Remove | ocr_utility.py:45 | `os.remove` succeeds only on an existing file and then removes only that file |
| Ocr.ProcessImageWithOcr | ocr_utility.py:14-22 | a missing image or a failed OCR gives `""`; otherwise the result is the recognised text |
| Ocr.FirstFailure | ocr_utility.py:29-45 | the index of the first page whose save or removal raises: every earlier page goes through, and that page does not |
| Ocr.DocumentText | ocr_utility.py:29-50 | the value `process_pdf_with_ocr` returns: the page texts joined by `"\n\n"` when rasterising and every page go through, else `""`. `SuccessJoinsPagesInOrder`, `AnyFailureGivesEmptyText`, `NoPagesGiveEmptyText` and `OcrFailureReadsAsBlankPage` state its properties, and `ProcessPdfWithOcr` is proved to return it |
| Ocr.FilesAfter | ocr_utility.py:35-45 | the output directory once the call returns: the files of the pages that went through are removed, and a page that raised after its save leaves its file. `SuccessLeavesNoPageFile`, `FailureLeavesAtMostOnePageFile` and `RemovalFailureLeavesPageFile` state its properties, and `ProcessPdfWithOcr` is proved to leave it |
| Ocr.ProcessPdfWithOcr | ocr_utility.py:24-50 | the returned text is `DocumentText`. The directory ends as `FilesAfter`. Loop invariant: after i pages, `all_text` has i entries, entry j is page j's OCR text, and the names of pages 1..i are gone from the directory |
| Ocr.ProcessPdfWithOcrInTempDir | ocr_utility.py:24-50 | with no output directory given, a failing `tempfile.mkdtemp()` raises to the caller; otherwise the result is the same text, computed in a fresh empty directory |
| Ocr.NoPagesGiveEmptyText | ocr_utility.py:34-47 | a PDF with zero pages gives `""` and touches no file |
| Ocr.SuccessJoinsPagesInOrder | ocr_utility.py:35-47 | on success the result is the page texts in page order with `"\n\n"` between neighbours: k - 1 separators for k pages, and each page's text at its offset |
| Ocr.OcrFailureReadsAsBlankPage | ocr_utility.py:35-47 | a page whose OCR fails does not abort the document: the call goes through exactly when it would with that page recognised as `""`, and returns the same text |
| Ocr.AnyFailureGivesEmptyText | ocr_utility.py:48-50 | a failure in rasterising, saving or removing any page makes the result `""` |
| Ocr.SuccessLeavesNoPageFile | ocr_utility.py:37-45 | on success none of `page_1.png` ... `page_k.png` remains, and no other file is touched |
| Ocr.FailureLeavesAtMostOnePageFile | ocr_utility.py:37-50 | on a failing page, the files of all earlier pages are gone, and at most the failing page's own file is added |
| Ocr.RemovalFailureLeavesPageFile | ocr_utility.py:35-50 | when the first page that raises had been saved, it is its `os.remove` that raised; the call returns `""` and that page's file `page_{f+1}.png` stays in the directory |

## Left out

- `main.py`, lines 1-7: the sqlite3 module patch. It is import plumbing.
- `main.py`, lines 16-48 and 54-156: the Streamlit page, file upload, chat history
  in session state, and CSS. These are presentation only. `answer_question`
  becomes the parameter `ans` of `SplitThink`.
- `rag_utility.py` in full. It holds config and secret loading, the embedding
  model and Groq client, the PDF loader, the text splitter (a library algorithm
  given only the constants 2000 and 200), Chroma persistence and the retrieval
  chain. Each of these is a thin wrapper over an outside library or service.
- `ocr_utility.py`, line 9 (the Tesseract data path) and lines 52-71
  (`create_document_from_image`, a temp-file write and read through a loader).
  These are I/O only.
- The rasterisation, `Image.open`, `image.save`, Tesseract and `os.remove` calls
  themselves. They appear only as their outcomes.
- The error logging (`print`) in both OCR functions.
- Strings.RemoveAll: models `replace(old, new)` only with `new == ""`, the one form
  the code uses.
- Strings.Slice: models only step-one slices.
- Strings.Find: models `find` with no start or end arguments.
- Ocr.Directory.Save: assumes a failed `image.save` writes no file. A partly written
  file on this path is not modelled.
- Ocr.ProcessPdfWithOcrInTempDir: leaves out the directory that `tempfile.mkdtemp()`
  creates and never deletes. Whether `mkdtemp` succeeds is an input.
- File contents: the model tracks which page files exist, not what bytes they hold.
