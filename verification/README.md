# PDF Redactor engine — a Dafny model

This project models the engine of the PDF Redactor, `src/pdf_redactor/redactor.py`.
It covers two functions and one record:

- `parse_terms` turns the text a user types into the list of terms to redact.
- `redact_pdf` opens a PDF, searches every page for every term, covers each match
  with a redaction box, saves the result, and reports a `RedactionResult`.

PyMuPDF and the file system are not modelled; they are an oracle:

- A document is a sequence of `Page`s. Each page says how many rectangles
  `page.search_for(term)` returns for each term on the unmodified page. Every
  search on a page runs before that page's `apply_redactions`, so this is the
  count the loop sees.
- A `Disk` says which paths exist, which paths open as a PDF (and with which
  pages), and which paths `doc.save` can write.

Files:

- `options.dfy`: the `Option` type, used for `X | None` parameters.
- `sequences.dfy`: shared sequence facts. `Dedup` drops later repeats, keeping
  first-occurrence order; this is what a set-guarded append or a dict built from
  a list does. Also first occurrences, multiplicities, and the set of elements.
- `pystr.dfy`: `str.isspace`, `strip`, `split(",")` and `splitlines`.
- `pypath.dfy`: `PurePath.name`, `stem` and `with_name`.
- `terms.dfy`: `parse_terms`.
  - The specification function `ParsedTerms` is the stripped, non-empty segments,
    repeats dropped.
  - The method `ParseTerms` is the nested loop with the `seen` set.
  - Lemmas state what `ParsedTerms` promises.
- `redaction.dfy`: `redact_pdf` and `RedactionResult`.
  - The method `RedactPdf` performs the checks in the source's order, then calls
    `ProcessPages` (the page loop), which calls `ScanPage` (the term loop).
  - Each of them is proved against left folds (`Tally`, `Counted`,
    `ModifiedPages`, `TotalBoxes`, `Work`, `Progress`) that follow the loops one
    step at a time.
  - Lemmas state what those folds mean: the count per term, the not-found list,
    page bounds, the work done per page, progress events, and the default output
    name.

Behaviour kept exactly as the code has it:

- **Duplicate terms.** `redact_pdf` does not deduplicate its `terms` argument.
  The dict collapses a repeated term to one key, but the term loop searches
  again for every occurrence. So a term listed twice counts, and is annotated,
  twice (`TallyCountsEveryOccurrence`). With distinct terms the count is the
  match count (`DistinctTermsCountTheirMatches`).
- **The default output always ends in `.pdf`.** It is `<stem>_redacted.pdf`
  whatever the input's extension: `notes.txt` becomes `notes_redacted.pdf`
  (`DefaultOutputOfText`). The docstring of `redact_pdf`
  (`src/pdf_redactor/redactor.py:81-82`) promises the same name.
- **An input with an empty name.** `Path(".")` exists, but `with_name` raises
  ValueError on it when no output path is given. The model gives this as
  `Failed(EmptyName(path))`, after the existence and empty-terms checks.
- **The order of failures.**
  1. A missing file.
  2. An empty term list.
  3. The output name.
  4. A file that is not a PDF.
  5. A save that fails.

  The first four leave the document unopened and nothing saved. A failed save
  comes after every page has been processed and reported. An exception raised
  inside the page loop is a sixth way out, which this model does not cover (see
  "Left out").

## Model

| member | source | states |
|---|---|---|
| Terms.ParsedTerms | src/pdf_redactor/redactor.py:43-63 | What `parse_terms` returns has no repeats and no empty term |
| Terms.ParseTerms | src/pdf_redactor/redactor.py:43-63 | The nested loops return exactly `ParsedTerms(raw)`: the stripped, non-empty comma-separated parts of the lines, in line-then-comma order, repeats after the first dropped |
| Terms.AbsorbParts | src/pdf_redactor/redactor.py:58-62 | The loop over one line's parts extends the terms as the one-part-at-a-time fold `Absorbed` does, and keeps `seen` equal to the set of terms collected |
| Terms.AbsorbedIsSpec | src/pdf_redactor/redactor.py:55-62 | The append-if-non-empty-and-unseen loop yields the non-empty stripped parts with later repeats dropped |
| Terms.LoopIsSpec | src/pdf_redactor/redactor.py:57-63 | What the loop has built once every line is consumed is `ParsedTerms(raw)` |
| Terms.StripEach | src/pdf_redactor/redactor.py:59 | Each part is replaced by its stripped form, positions kept |
| Terms.DropEmpty | src/pdf_redactor/redactor.py:60 | The result holds no empty string, and holds exactly the non-empty strings of the input |
| Terms.TermsAreClean | src/pdf_redactor/redactor.py:57-61 | Every term is non-empty, equal to its own stripped form, and holds no comma and no line boundary |
| Terms.TermsAreTheStrippedSegments | src/pdf_redactor/redactor.py:57-62 | Every non-empty stripped segment is a term, and every term is a stripped segment |
| Terms.TermsInFirstOccurrenceOrder | src/pdf_redactor/redactor.py:57-62 | Terms come in the order of their first occurrence among the stripped non-empty segments |
| Terms.BlankInputHasNoTerms | src/pdf_redactor/redactor.py:57-63 | Input made only of whitespace, the empty input included, gives no terms |
| Terms.SegmentOrigin | src/pdf_redactor/redactor.py:57-58 | Every segment is one of the comma-separated parts of one line |
| Sequences.Dedup | src/pdf_redactor/redactor.py:55-62 | The result has no duplicates and holds exactly the elements of the input |
| Sequences.DedupFirstOccurrenceOrder | src/pdf_redactor/redactor.py:55-62 | Kept elements appear in the order of their first occurrence in the input |
| Sequences.DedupOfNoDup | src/pdf_redactor/redactor.py:60-62 | A list without repeats is kept as is |
| Sequences.Count | src/pdf_redactor/redactor.py:119-123 | An element's number of occurrences is positive exactly when it occurs, and is at most the length |
| Sequences.CountOfNoDup | src/pdf_redactor/redactor.py:119-123 | In a list without repeats every element occurs once |
| Sequences.FirstIndex | src/pdf_redactor/redactor.py:55-62 | The position found holds the element, and no earlier position does |
| PyStr.LStrip | src/pdf_redactor/redactor.py:59 | The result is a suffix of the input; only whitespace was removed, and the result does not start with whitespace |
| PyStr.RStrip | src/pdf_redactor/redactor.py:59 | The result is a prefix of the input; only whitespace was removed, and the result does not end with whitespace |
| PyStr.Strip | src/pdf_redactor/redactor.py:59 | The result neither starts nor ends with whitespace, and is empty exactly when the input is all whitespace |
| PyStr.StripIsSlice | src/pdf_redactor/redactor.py:59 | The stripped string is a contiguous slice of the input |
| PyStr.CharOfStrip | src/pdf_redactor/redactor.py:59 | Stripping adds no character |
| PyStr.StripFixedPoint | src/pdf_redactor/redactor.py:59 | A string with no whitespace at either end is its own strip |
| PyStr.StripIdempotent | src/pdf_redactor/redactor.py:59 | Stripping twice is stripping once |
| PyStr.Split | src/pdf_redactor/redactor.py:58 | `split(",")` returns at least one part, so an empty line yields one empty part |
| PyStr.SplitPartsLackSeparator | src/pdf_redactor/redactor.py:58 | No part holds the separator |
| PyStr.JoinSplit | src/pdf_redactor/redactor.py:58 | Joining the parts with the separator gives back the line |
| PyStr.SplitJoin | src/pdf_redactor/redactor.py:58 | Splitting a join of separator-free parts gives back the parts |
| PyStr.CharOfPart | src/pdf_redactor/redactor.py:58 | Every character of a part is a character of the line |
| PyStr.LineEnd | src/pdf_redactor/redactor.py:57 | The first line ends at the first line boundary, or at the end of the input |
| PyStr.SplitLines | src/pdf_redactor/redactor.py:57 | `splitlines()` gives no lines exactly for the empty input |
| PyStr.SplitLinesJoin | src/pdf_redactor/redactor.py:57 | Where the lines divide: for text whose only boundaries are "\n" and that does not end in one, joining the lines with "\n" gives the text back |
| PyStr.LinesLackBreaks | src/pdf_redactor/redactor.py:57 | No line holds a line boundary |
| PyStr.ConcatSplitLines | src/pdf_redactor/redactor.py:57 | The lines, concatenated, are the input with its line boundaries removed |
| PyStr.CharOfLine | src/pdf_redactor/redactor.py:57 | Every character of a line is a character of the input |
| PyPath.RFind | src/pdf_redactor/redactor.py:105 | The index found is the last occurrence of the character, or -1 when there is none |
| PyPath.Stem | src/pdf_redactor/redactor.py:105 | The stem is a prefix of the name |
| PyPath.WithName | src/pdf_redactor/redactor.py:105 | `with_name` succeeds exactly when the path has a name and the new name is valid, and then keeps the directory and takes the new name |
| PyPath.StemSplitsAtLastDot | src/pdf_redactor/redactor.py:105 | The stem is the whole name, or the name up to its last dot when that dot is neither first nor last, and only then |
| PyPath.StemHasNoSeparator | src/pdf_redactor/redactor.py:105 | A stem of a separator-free name is separator-free |
| Redaction.RedactPdf | src/pdf_redactor/redactor.py:98-152 | The failures come in the source's order, and the first four leave the document unopened and nothing saved. Once the document is opened, every page is processed and reported. A failed save gives PermissionError; otherwise the result is the summary of the counts |
| Redaction.ProcessPages | src/pdf_redactor/redactor.py:108-133 | After the page loop the counts are the per-term tally, with keys exactly the distinct terms; their sum is the number of annotations added; `pages_modified`, the per-page work and the progress events are those of every page |
| Redaction.ScanPage | src/pdf_redactor/redactor.py:118-125 | The term loop adds one page to the tally and its rectangles to the sum of the counts; it marks the page matched exactly as `page_had_matches` ends, and annotates every rectangle found |
| Redaction.DefaultOutput | src/pdf_redactor/redactor.py:104-105 | An input with an empty name has no default output; otherwise the default lies in the input's directory and is named stem + "_redacted.pdf" |
| Redaction.ResolveOutput | src/pdf_redactor/redactor.py:104-106 | A given output path is used as is; there is no output path only when none is given and the default cannot be derived |
| Redaction.SumOver | src/pdf_redactor/redactor.py:139 | `sum(matches_per_term.values())` is at least each of the counts |
| Redaction.Summary | src/pdf_redactor/redactor.py:139-152 | The returned record has the output path and page count; `pages_modified` is at most `pages_total`; the dict has one key per distinct term; every term not found has a zero count |
| Redaction.Tally | src/pdf_redactor/redactor.py:108 | `matches_per_term` has exactly one key per distinct term |
| Redaction.NotFound | src/pdf_redactor/redactor.py:140 | A key is listed exactly when its count is zero |
| Redaction.DefaultOutputIsBesideTheInput | src/pdf_redactor/redactor.py:104-106 | The default output exists exactly when the input has a name; it is in the same directory, named stem + "_redacted.pdf", and never the input itself |
| Redaction.DefaultOutputOfReport | src/pdf_redactor/redactor.py:105 | report.pdf becomes report_redacted.pdf |
| Redaction.DefaultOutputOfText | src/pdf_redactor/redactor.py:105 | notes.txt becomes notes_redacted.pdf, not notes_redacted.txt |
| Redaction.DefaultOutputOfDoubleSuffix | src/pdf_redactor/redactor.py:105 | archive.tar.gz becomes archive.tar_redacted.pdf: only the last suffix is dropped |
| Redaction.DefaultOutputOfCurrentDirectory | src/pdf_redactor/redactor.py:105 | `Path(".")`, which has an empty name, gets no default output (ValueError) |
| Redaction.CountedAddsOnPage | src/pdf_redactor/redactor.py:119-123 | The term loop adds no key, and adds to each term's count its rectangles once per occurrence of the term in the list |
| Redaction.CountedSum | src/pdf_redactor/redactor.py:119-125 | The term loop raises the sum of the counts by exactly the rectangles annotated on the page |
| Redaction.SumOverBump | src/pdf_redactor/redactor.py:139 | Adding to one key's count adds the same amount to `sum(values())`, each key being summed once |
| Redaction.MatchedIffSomeTermFound | src/pdf_redactor/redactor.py:118-128 | A page is matched exactly when some term has a rectangle on it, which is exactly when it got an annotation |
| Redaction.OnPageIsMultiple | src/pdf_redactor/redactor.py:119-123 | On one page a term's count grows by its rectangles times the term's number of occurrences in the list |
| Redaction.TermTallyIsMultiple | src/pdf_redactor/redactor.py:117-123 | Over the document a term's count is its occurrences in the list times its matches summed over the pages |
| Redaction.TallyCountsEveryOccurrence | src/pdf_redactor/redactor.py:108-123 | `matches_per_term[t]` is the term's occurrences in the list times its matches summed over all pages |
| Redaction.DistinctTermsCountTheirMatches | src/pdf_redactor/redactor.py:108-123 | With distinct terms, each count is the term's matches summed over all pages |
| Redaction.SumHitsZero | src/pdf_redactor/redactor.py:140 | A term's summed matches are zero exactly when no page has a match for it |
| Redaction.TermsNotFoundAreTheUnmatched | src/pdf_redactor/redactor.py:140 | `terms_not_found` holds exactly the input terms that no page matches |
| Redaction.NotFoundIsSubsequence | src/pdf_redactor/redactor.py:140 | The not-found list keeps the order of the dict's keys |
| Redaction.TermsNotFoundInFirstOccurrenceOrder | src/pdf_redactor/redactor.py:140 | `terms_not_found` lists terms in the order of their first occurrence in the term list |
| Redaction.DistinctTermsNotFoundKeepTheirOrder | src/pdf_redactor/redactor.py:108-140 | With distinct terms the dict's keys are `terms` in order, so `terms_not_found` is `terms` filtered to the unmatched ones |
| Redaction.TermsNotFoundAreDistinct | src/pdf_redactor/redactor.py:140 | No term is listed twice in `terms_not_found` |
| Redaction.ModifiedPagesBounds | src/pdf_redactor/redactor.py:117-129 | `pages_modified` is at most `pages_total`; it equals it exactly when every page has a match, and is zero exactly when none has |
| Redaction.WorkPerPage | src/pdf_redactor/redactor.py:117-129 | Every page gets one annotation per rectangle found, and `apply_redactions` runs on it exactly when it has a match, which is exactly when it got an annotation |
| Redaction.ProgressCountsPages | src/pdf_redactor/redactor.py:131-132 | The progress events are (1, n), (2, n), …, (n, n), one per page whether or not it matched |

## Left out

- PyMuPDF itself is not modelled. That covers `fitz.open`, `search_for`, `add_redact_annot`, `apply_redactions`, `save` and `close`. It is the `Page`/`Disk` oracle. Whether the redacted text is really gone from the saved file depends on the library alone and is not stated.
- Redaction.RedactPdf: an exception raised inside the page loop is not modelled. If `search_for`, `add_redact_annot` or `apply_redactions` fails, or the progress callback (user code) raises, control leaves the `try` block: nothing is saved, the document is closed, and the exception propagates. The contract assumes none of this happens: once the document is opened, every page is processed and reported.
- Redaction.ScanPage: the `for rect in rects` loop is summarised as adding `len(rects)` annotations. The rectangles' coordinates are not modelled.
- `doc.close()` in the `finally` block is not modelled. The document handle is not tracked; `Trace` records only that the document was opened.
- `fill_color` is a float RGB triple passed through unchanged, so it is not modelled.
- Logging (`logger.info`, `logger.warning`) is not modelled.
- The progress callback is a flag saying whether one was given. Its calls are recorded as the `(current, total)` pairs they would receive. What the callback does with them (the GUI's percentage, thread hand-off) is not modelled.
- `FileDataError` covers only "the path is not in the oracle's documents". Other errors `fitz.open` or `doc.save` could raise are not distinguished. `PermissionError` stands for any failed save.
- Redaction.RedactionResult: `matches_per_term` is a map. The dict's key order is the order of first occurrence in `terms`. That order is used where it matters, for `terms_not_found`.
- PyStr: `strip` and `splitlines` use explicit character classes (`IsSpace`, `IsLineBreak`) taken from Python's definitions. There is no Unicode normalisation.
- PyPath: only POSIX paths are modelled, as a directory part and a final name. `Path(input_path)` and `Path(output_path)` conversions are identities. `with_name`'s name check is reduced to "not empty, not `.`, no `/`".
- `gui.py`, `__main__.py` and `__init__.py` are not part of this model. They hold the Tkinter front end, the entry point and re-exports.
