/**
 * The bookkeeping of `redact_pdf`: the checks it makes before it opens the
 * document, the output path it derives, the counts it accumulates page by page
 * and term by term, the progress it reports, and the `RedactionResult` it
 * returns. PyMuPDF and the file system are an oracle: a document is, for each
 * page, the number of rectangles `page.search_for(term)` finds for each term.
 */
module Redaction {
  import opened Options
  import opened Sequences
  import opened PyPath

  // ------------------------------------------------------------ the oracle

  /**
   * One page as `search_for` sees it before any redaction is applied to it:
   * the number of rectangles found for each term; a term the map lacks has none.
   */
  datatype Page = Page(hits: map<string, nat>)

  /** `len(page.search_for(term))`. */
  function Hits(page: Page, term: string): nat {
    if term in page.hits then page.hits[term] else 0
  }

  /**
   * What the file system and PyMuPDF answer: the paths that exist, the paths
   * `fitz.open` reads as a PDF (with their pages), and the paths `doc.save` can write.
   */
  datatype Disk = Disk(existing: set<Path>, documents: map<Path, seq<Page>>, writable: set<Path>)

  // ----------------------------------------------------------- the record

  /** `RedactionResult`; `matchesPerTerm` is the dict without its key order, which is `Dedup(terms)`. */
  datatype RedactionResult = RedactionResult(
    outputPath: Path,
    totalMatches: nat,
    matchesPerTerm: map<string, nat>,
    pagesModified: nat,
    pagesTotal: nat,
    termsNotFound: seq<string>)

  /** The exceptions `redact_pdf` raises. */
  datatype Failure =
    | FileNotFound(path: Path)  // FileNotFoundError: the input does not exist
    | NoTerms                   // ValueError: the term list is empty
    | EmptyName(path: Path)     // ValueError from `with_name`: the input has no name to derive the output from
    | NotAPdf(path: Path)       // fitz.FileDataError: the input does not open as a PDF
    | CannotWrite(path: Path)   // PermissionError: `doc.save` cannot write the output

  datatype Outcome = Redacted(result: RedactionResult) | Failed(failure: Failure)

  /** What happened to one page: the redaction annotations added to it, and whether `apply_redactions` ran. */
  datatype PageWork = PageWork(annotations: nat, applied: bool)

  /**
   * The effects of a call besides its outcome: whether the document was opened,
   * the work done on each page, the `(current, total)` pairs passed to the
   * progress callback, and whether the output was saved.
   */
  datatype Trace = Trace(docOpened: bool, work: seq<PageWork>, progress: seq<(nat, nat)>, saved: bool)

  // ----------------------------------------------------------- output path

  const RedactedSuffix: string := "_redacted.pdf"

  /** `input_path.with_name(f"{input_path.stem}_redacted.pdf")`; None is the ValueError. */
  function DefaultOutput(input: Path): (r: Option<Path>)
    ensures input.name == "" ==> r.None?
    ensures r.Some? ==> r.value.parent == input.parent && r.value.name == Stem(input.name) + RedactedSuffix
  {
    WithName(input, Stem(input.name) + RedactedSuffix)
  }

  /** The output path: the one given, or else the default one. */
  function ResolveOutput(input: Path, output: Option<Path>): (r: Option<Path>)
    ensures output.Some? ==> r == output
    ensures r.None? <==> output.None? && DefaultOutput(input).None?
  {
    if output.Some? then output else DefaultOutput(input)
  }

  /**
   * The default output exists exactly when the input has a name. It lies in the
   * input's directory, is named after the input's stem with "_redacted.pdf"
   * appended whatever the input's extension, and is never the input itself.
   */
  lemma {:induction false} DefaultOutputIsBesideTheInput(input: Path)
    requires '/' !in input.name
    ensures DefaultOutput(input).Some? <==> input.name != ""
    ensures DefaultOutput(input).Some? ==>
      var out := DefaultOutput(input).value;
      && out.parent == input.parent
      && out.name == Stem(input.name) + RedactedSuffix
      && out != input
  {
    var stem := Stem(input.name);
    var name := stem + RedactedSuffix;
    StemHasNoSeparator(input.name);
    assert '/' !in RedactedSuffix;
    assert |name| > 1;
    assert IsValidName(name);
    if input.name != "" {
      StemSplitsAtLastDot(input.name);
      if stem != input.name {
        assert input.name[|stem|] == '.' && name[|stem|] == '_';
      }
    }
  }

  /** The test suite's case: "report.pdf" becomes "report_redacted.pdf". */
  lemma DefaultOutputOfReport()
    ensures DefaultOutput(Path("/tmp", "report.pdf")) == Some(Path("/tmp", "report_redacted.pdf"))
  {
    DefaultOutputIsBesideTheInput(Path("/tmp", "report.pdf"));
    assert "report.pdf"[6] == '.' && RFind("report.pdf", '.') == 6;
    assert Stem("report.pdf") == "report";
    assert "report" + RedactedSuffix == "report_redacted.pdf";
  }

  /** Whatever the input's extension, the output's is ".pdf". */
  lemma DefaultOutputOfText()
    ensures DefaultOutput(Path("/tmp", "notes.txt")) == Some(Path("/tmp", "notes_redacted.pdf"))
  {
    DefaultOutputIsBesideTheInput(Path("/tmp", "notes.txt"));
    assert "notes.txt"[5] == '.' && RFind("notes.txt", '.') == 5;
    assert Stem("notes.txt") == "notes";
    assert "notes" + RedactedSuffix == "notes_redacted.pdf";
  }

  /** Only the last suffix is dropped. */
  lemma DefaultOutputOfDoubleSuffix()
    ensures DefaultOutput(Path("/tmp", "archive.tar.gz")) == Some(Path("/tmp", "archive.tar_redacted.pdf"))
  {
    DefaultOutputIsBesideTheInput(Path("/tmp", "archive.tar.gz"));
    assert "archive.tar.gz"[11] == '.' && RFind("archive.tar.gz", '.') == 11;
    assert Stem("archive.tar.gz") == "archive.tar";
    assert "archive.tar" + RedactedSuffix == "archive.tar_redacted.pdf";
  }

  /** `Path(".")` has an empty name: `with_name` raises ValueError. */
  lemma DefaultOutputOfCurrentDirectory()
    ensures DefaultOutput(Path(".", "")) == None
  {
  }

  // --------------------------------------------- what the loops accumulate

  /**
   * The rectangles added to `matches_per_term[t]` while the term loop walks
   * `ts` on one page: every occurrence of `t` in `ts` searches again.
   */
  function OnPage(page: Page, ts: seq<string>, t: string): nat {
    if ts == [] then 0
    else OnPage(page, ts[..|ts| - 1], t) + (if ts[|ts| - 1] == t then Hits(page, t) else 0)
  }

  /** `counts[t]`, or 0 for a key `counts` lacks. */
  function Get(counts: map<string, nat>, t: string): nat {
    if t in counts then counts[t] else 0
  }

  /**
   * The counts after the term loop has walked `ts` on one page, starting from
   * `counts`: a term with rectangles has their number added to its count.
   */
  function Counted(counts: map<string, nat>, page: Page, ts: seq<string>): map<string, nat> {
    if ts == [] then counts
    else
      var before, t := Counted(counts, page, ts[..|ts| - 1]), ts[|ts| - 1];
      if Hits(page, t) > 0 then before[t := Get(before, t) + Hits(page, t)] else before
  }

  /** `matches_per_term[t]` once the pages of `doc` have been processed. */
  function TermTally(doc: seq<Page>, terms: seq<string>, t: string): nat {
    if doc == [] then 0
    else TermTally(doc[..|doc| - 1], terms, t) + OnPage(doc[|doc| - 1], terms, t)
  }

  /** `matches_per_term` once every page has been processed: one key per distinct term. */
  function Tally(doc: seq<Page>, terms: seq<string>): (counts: map<string, nat>)
    ensures forall t :: t in counts <==> t in terms
  {
    map t | t in terms :: TermTally(doc, terms, t)
  }

  /** The rectangles found on one page while the term loop walks `ts`: the annotations added to it. */
  function Boxes(page: Page, ts: seq<string>): nat {
    if ts == [] then 0 else Boxes(page, ts[..|ts| - 1]) + Hits(page, ts[|ts| - 1])
  }

  /** `page_had_matches` once the term loop has walked `ts`. */
  predicate Matched(page: Page, ts: seq<string>) {
    ts != [] && (Matched(page, ts[..|ts| - 1]) || Hits(page, ts[|ts| - 1]) > 0)
  }

  /** `pages_modified` once the pages of `doc` have been processed. */
  function ModifiedPages(doc: seq<Page>, terms: seq<string>): nat {
    if doc == [] then 0
    else ModifiedPages(doc[..|doc| - 1], terms) + (if Matched(doc[|doc| - 1], terms) then 1 else 0)
  }

  /** The annotations added over all the pages of `doc`. */
  function TotalBoxes(doc: seq<Page>, terms: seq<string>): nat {
    if doc == [] then 0 else TotalBoxes(doc[..|doc| - 1], terms) + Boxes(doc[|doc| - 1], terms)
  }

  /** The work done on the pages of `doc`, page by page. */
  function Work(doc: seq<Page>, terms: seq<string>): seq<PageWork> {
    if doc == [] then []
    else
      var page := doc[|doc| - 1];
      Work(doc[..|doc| - 1], terms) + [PageWork(Boxes(page, terms), Matched(page, terms))]
  }

  /** The matches of one term summed over the pages of `doc`. */
  function SumHits(doc: seq<Page>, t: string): nat {
    if doc == [] then 0 else SumHits(doc[..|doc| - 1], t) + Hits(doc[|doc| - 1], t)
  }

  /** The progress callback's arguments for the first `n` pages of a `total`-page document. */
  function Progress(n: nat, total: nat): seq<(nat, nat)> {
    if n == 0 then [] else Progress(n - 1, total) + [(n, total)]
  }

  // ------------------------------------------------------ the final summary

  /**
   * `sum(matches_per_term.values())`, the values taken in the order of `keys`;
   * a key the map lacks (never the case for the dict) adds nothing.
   */
  function SumOver(keys: seq<string>, counts: map<string, nat>): (total: nat)
    ensures forall k :: 0 <= k < |keys| && keys[k] in counts ==> counts[keys[k]] <= total
  {
    if keys == [] then 0
    else
      var init := keys[..|keys| - 1];
      var k := keys[|keys| - 1];
      assert forall j :: 0 <= j < |init| ==> init[j] == keys[j];
      SumOver(init, counts) + if k in counts then counts[k] else 0
  }

  /** `[t for t, count in matches_per_term.items() if count == 0]`, the keys taken in the order of `keys`. */
  function NotFound(keys: seq<string>, counts: map<string, nat>): (r: seq<string>)
    ensures forall t :: t in r <==> t in keys && t in counts && counts[t] == 0
  {
    if keys == [] then []
    else
      var r := NotFound(keys[..|keys| - 1], counts);
      var t := keys[|keys| - 1];
      assert keys == keys[..|keys| - 1] + [t];
      if t in counts && counts[t] == 0 then r + [t] else r
  }

  /** The `RedactionResult` for a document every page of which has been processed. */
  function Summary(doc: seq<Page>, terms: seq<string>, out: Path): (r: RedactionResult)
    ensures r.outputPath == out && r.pagesTotal == |doc|
    ensures r.pagesModified <= r.pagesTotal
    ensures forall t :: t in r.matchesPerTerm <==> t in terms
    ensures forall t :: t in r.termsNotFound ==> t in r.matchesPerTerm && r.matchesPerTerm[t] == 0
  {
    ModifiedPagesBounds(doc, terms);
    var counts := Tally(doc, terms);
    RedactionResult(out, TotalBoxes(doc, terms), counts, ModifiedPages(doc, terms), |doc|,
                    NotFound(Dedup(terms), counts))
  }

  // ------------------------------------------------------------ the engine

  /**
   * `redact_pdf(input_path, terms, output_path, fill_color, progress_callback)`;
   * `callback` says whether a progress callback was given.
   */
  method RedactPdf(disk: Disk, inputPath: Path, terms: seq<string>, outputPath: Option<Path>, callback: bool)
    returns (outcome: Outcome, trace: Trace)
    ensures inputPath !in disk.existing ==> outcome == Failed(FileNotFound(inputPath))
    ensures inputPath in disk.existing && terms == [] ==> outcome == Failed(NoTerms)
    ensures inputPath in disk.existing && terms != [] && ResolveOutput(inputPath, outputPath).None? ==>
      outcome == Failed(EmptyName(inputPath))
    ensures (inputPath in disk.existing && terms != [] && ResolveOutput(inputPath, outputPath).Some?
             && inputPath !in disk.documents) ==> outcome == Failed(NotAPdf(inputPath))
    ensures trace.docOpened <==>
      inputPath in disk.existing && terms != [] && ResolveOutput(inputPath, outputPath).Some?
      && inputPath in disk.documents
    ensures !trace.docOpened ==> trace == Trace(false, [], [], false)
    ensures trace.docOpened ==>
      var doc := disk.documents[inputPath];
      var out := ResolveOutput(inputPath, outputPath).value;
      && trace.work == Work(doc, terms)
      && trace.progress == (if callback then Progress(|doc|, |doc|) else [])
      && trace.saved == (out in disk.writable)
      && outcome == if out in disk.writable then Redacted(Summary(doc, terms, out)) else Failed(CannotWrite(out))
  {
    trace := Trace(false, [], [], false);
    if inputPath !in disk.existing {
      return Failed(FileNotFound(inputPath)), trace;
    }
    if terms == [] {
      return Failed(NoTerms), trace;
    }
    var output := outputPath;
    if output.None? {
      output := DefaultOutput(inputPath);
      if output.None? {
        return Failed(EmptyName(inputPath)), trace;
      }
    }
    var out := output.value;
    if inputPath !in disk.documents {
      return Failed(NotAPdf(inputPath)), trace;
    }
    var doc := disk.documents[inputPath];
    var counts, pagesModified, work, progress := ProcessPages(doc, terms, callback);
    var saved := out in disk.writable;
    trace := Trace(true, work, progress, saved);
    if !saved {
      return Failed(CannotWrite(out)), trace;
    }
    var keys := Dedup(terms);
    var totalMatches := SumOver(keys, counts);
    var termsNotFound := NotFound(keys, counts);
    outcome := Redacted(RedactionResult(out, totalMatches, counts, pagesModified, |doc|, termsNotFound));
  }

  /**
   * The page loop of `redact_pdf`: the term loop on each page, `apply_redactions`
   * on the pages that had a match, and one progress report per page.
   */
  method ProcessPages(doc: seq<Page>, terms: seq<string>, callback: bool)
    returns (counts: map<string, nat>, pagesModified: nat, work: seq<PageWork>, progress: seq<(nat, nat)>)
    ensures counts == Tally(doc, terms)
    ensures SumOver(Dedup(terms), counts) == TotalBoxes(doc, terms)
    ensures pagesModified == ModifiedPages(doc, terms)
    ensures work == Work(doc, terms)
    ensures progress == if callback then Progress(|doc|, |doc|) else []
  {
    counts := map t | t in terms :: 0;
    TallyOfNoPages(terms);
    SumOverZero(Dedup(terms), counts);
    pagesModified := 0;
    work := [];
    progress := [];
    var totalPages := |doc|;
    for i := 0 to |doc|
      invariant counts == Tally(doc[..i], terms)
      invariant SumOver(Dedup(terms), counts) == TotalBoxes(doc[..i], terms)
      invariant pagesModified == ModifiedPages(doc[..i], terms)
      invariant work == Work(doc[..i], terms)
      invariant progress == if callback then Progress(i, totalPages) else []
    {
      var hadMatches, annotations;
      counts, hadMatches, annotations := ScanPage(doc[i], terms, counts, doc[..i]);
      if hadMatches {
        pagesModified := pagesModified + 1;
      }
      work := work + [PageWork(annotations, hadMatches)];
      if callback {
        var report: (nat, nat) := (i + 1, totalPages);
        progress := progress + [report];
      }
      PagesSnoc(doc[..i], doc[i], terms);
      PrefixSnoc(doc, i);
    }
    assert doc[..|doc|] == doc;
  }

  /**
   * The term loop on one page: each term's rectangles are added to its count and
   * each gets a redaction annotation, and a page with any rectangle is marked as matched.
   * `done` are the pages processed before this one.
   */
  method ScanPage(page: Page, terms: seq<string>, counts0: map<string, nat>, ghost done: seq<Page>)
    returns (counts: map<string, nat>, hadMatches: bool, annotations: nat)
    requires counts0 == Tally(done, terms)
    ensures counts == Tally(done + [page], terms)
    ensures SumOver(Dedup(terms), counts) == SumOver(Dedup(terms), counts0) + annotations
    ensures hadMatches == Matched(page, terms)
    ensures annotations == Boxes(page, terms)
  {
    counts, hadMatches, annotations := counts0, false, 0;
    for j := 0 to |terms|
      invariant counts == Counted(counts0, page, terms[..j])
      invariant counts.Keys == counts0.Keys
      invariant hadMatches == Matched(page, terms[..j])
      invariant annotations == Boxes(page, terms[..j])
    {
      var term := terms[j];
      var rects := Hits(page, term);
      TermsSnoc(counts0, page, terms, j);
      if rects > 0 {
        hadMatches := true;
        counts := counts[term := counts[term] + rects];
        annotations := annotations + rects;
      }
    }
    assert terms[..|terms|] == terms;
    CountedAddsOnPage(counts0, page, terms);
    TallySnoc(done, page, terms, counts);
    CountedSum(Dedup(terms), counts0, page, terms);
  }

  // ------------------------------------------------ unfolding one more step

  lemma {:induction false} TermsSnoc(counts: map<string, nat>, page: Page, terms: seq<string>, j: nat)
    requires j < |terms|
    ensures var before, t := Counted(counts, page, terms[..j]), terms[j];
      Counted(counts, page, terms[..j + 1])
        == if Hits(page, t) > 0 then before[t := Get(before, t) + Hits(page, t)] else before
    ensures Boxes(page, terms[..j + 1]) == Boxes(page, terms[..j]) + Hits(page, terms[j])
    ensures Matched(page, terms[..j + 1]) == (Matched(page, terms[..j]) || Hits(page, terms[j]) > 0)
  {
    assert terms[..j + 1][..j] == terms[..j];
  }

  lemma {:induction false} PagesSnoc(done: seq<Page>, page: Page, terms: seq<string>)
    ensures TotalBoxes(done + [page], terms) == TotalBoxes(done, terms) + Boxes(page, terms)
    ensures ModifiedPages(done + [page], terms)
      == ModifiedPages(done, terms) + (if Matched(page, terms) then 1 else 0)
    ensures Work(done + [page], terms) == Work(done, terms) + [PageWork(Boxes(page, terms), Matched(page, terms))]
  {
    assert (done + [page])[..|done|] == done;
  }

  /** No page processed: every term counts zero. */
  lemma {:induction false} TallyOfNoPages(terms: seq<string>)
    ensures Tally([], terms) == map t | t in terms :: 0
  {
  }

  /** The counts after one more page, given term by term, are the tally of one more page. */
  lemma {:induction false} TallySnoc(done: seq<Page>, page: Page, terms: seq<string>, counts: map<string, nat>)
    requires forall t :: t in counts <==> t in terms
    requires forall t :: t in counts ==> counts[t] == Tally(done, terms)[t] + OnPage(page, terms, t)
    ensures counts == Tally(done + [page], terms)
  {
    assert (done + [page])[..|done|] == done;
    assert forall t :: TermTally(done + [page], terms, t) == TermTally(done, terms, t) + OnPage(page, terms, t);
  }

  // --------------------------------------------------------------- sums

  lemma {:induction false} SumOverZero(keys: seq<string>, counts: map<string, nat>)
    requires forall t :: t in counts ==> counts[t] == 0
    ensures SumOver(keys, counts) == 0
  {
    if keys != [] {
      SumOverZero(keys[..|keys| - 1], counts);
    }
  }

  /** Two maps that agree on `keys` have the same sum over them. */
  lemma {:induction false} SumOverFrame(keys: seq<string>, a: map<string, nat>, b: map<string, nat>)
    requires forall k :: 0 <= k < |keys| ==>
      (keys[k] in a <==> keys[k] in b) && (keys[k] in a ==> a[keys[k]] == b[keys[k]])
    ensures SumOver(keys, a) == SumOver(keys, b)
  {
    if keys != [] {
      SumOverFrame(keys[..|keys| - 1], a, b);
    }
  }

  /** Adding `h` to the count of one key adds `h` to the sum, each key being summed once. */
  lemma {:induction false} SumOverBump(keys: seq<string>, counts: map<string, nat>, t: string, h: nat)
    requires t in counts && NoDup(keys) && t in keys
    ensures SumOver(keys, counts[t := counts[t] + h]) == SumOver(keys, counts) + h
  {
    var ks, x := keys[..|keys| - 1], keys[|keys| - 1];
    assert keys == ks + [x];
    var bumped := counts[t := counts[t] + h];
    if x == t {
      assert forall k :: 0 <= k < |ks| ==> ks[k] == keys[k] != t;
      SumOverFrame(ks, counts, bumped);
    } else {
      assert t in ks by {
        var k :| 0 <= k < |keys| && keys[k] == t;
        assert ks[k] == t;
      }
      assert NoDup(ks);
      SumOverBump(ks, counts, t, h);
    }
  }

  /**
   * Walking `ts` adds to each key its rectangles once per occurrence in `ts`,
   * and adds no key.
   */
  lemma {:induction false} CountedAddsOnPage(counts: map<string, nat>, page: Page, ts: seq<string>)
    requires forall k :: 0 <= k < |ts| ==> ts[k] in counts
    ensures forall t :: t in Counted(counts, page, ts) <==> t in counts
    ensures forall t :: t in counts ==> Counted(counts, page, ts)[t] == counts[t] + OnPage(page, ts, t)
  {
    if ts != [] {
      var ts' := ts[..|ts| - 1];
      assert forall k :: 0 <= k < |ts'| ==> ts'[k] == ts[k];
      CountedAddsOnPage(counts, page, ts');
    }
  }

  /** Walking `ts` adds to the sum over the keys exactly the rectangles found. */
  lemma {:induction false} CountedSum(keys: seq<string>, counts: map<string, nat>, page: Page, ts: seq<string>)
    requires NoDup(keys)
    requires forall k :: 0 <= k < |ts| ==> ts[k] in keys && ts[k] in counts
    ensures SumOver(keys, Counted(counts, page, ts)) == SumOver(keys, counts) + Boxes(page, ts)
  {
    if ts != [] {
      var ts', x := ts[..|ts| - 1], ts[|ts| - 1];
      assert forall k :: 0 <= k < |ts'| ==> ts'[k] == ts[k];
      CountedSum(keys, counts, page, ts');
      CountedAddsOnPage(counts, page, ts');
      var before := Counted(counts, page, ts');
      if Hits(page, x) > 0 {
        SumOverBump(keys, before, x, Hits(page, x));
      }
    }
  }

  // ------------------------------------------------------------ properties

  /** A page counts as matched exactly when some term has a rectangle on it, which is when it gets an annotation. */
  lemma {:induction false} MatchedIffSomeTermFound(page: Page, ts: seq<string>)
    ensures Matched(page, ts) <==> exists k :: 0 <= k < |ts| && Hits(page, ts[k]) > 0
    ensures Matched(page, ts) <==> Boxes(page, ts) > 0
  {
    if ts != [] {
      var ts' := ts[..|ts| - 1];
      MatchedIffSomeTermFound(page, ts');
      assert forall k :: 0 <= k < |ts'| ==> ts'[k] == ts[k];
      if exists k :: 0 <= k < |ts| && Hits(page, ts[k]) > 0 {
        var k :| 0 <= k < |ts| && Hits(page, ts[k]) > 0;
        assert k < |ts'| ==> Hits(page, ts'[k]) > 0;
      }
    }
  }

  /** On one page a term's count grows by its rectangles once per occurrence of the term in the list. */
  lemma {:induction false} OnPageIsMultiple(page: Page, ts: seq<string>, t: string)
    ensures OnPage(page, ts, t) == Count(ts, t) * Hits(page, t)
  {
    if ts != [] {
      var ts' := ts[..|ts| - 1];
      OnPageIsMultiple(page, ts', t);
      if ts[|ts| - 1] == t {
        MulSucc(Count(ts', t), Hits(page, t));
      }
    }
  }

  lemma MulSucc(c: nat, h: nat)
    ensures (c + 1) * h == c * h + h
  {
  }

  /**
   * `matches_per_term[t]` is the term's matches summed over all pages, times the
   * number of times the term occurs in the list: a repeated term is counted once
   * per occurrence.
   */
  lemma {:induction false} TallyCountsEveryOccurrence(doc: seq<Page>, terms: seq<string>, t: string)
    requires t in terms
    ensures Tally(doc, terms)[t] == Count(terms, t) * SumHits(doc, t)
  {
    TermTallyIsMultiple(doc, terms, t);
  }

  lemma {:induction false} TermTallyIsMultiple(doc: seq<Page>, terms: seq<string>, t: string)
    ensures TermTally(doc, terms, t) == Count(terms, t) * SumHits(doc, t)
  {
    if doc != [] {
      var doc', page := doc[..|doc| - 1], doc[|doc| - 1];
      TermTallyIsMultiple(doc', terms, t);
      OnPageIsMultiple(page, terms, t);
      MulAddDistrib(Count(terms, t), SumHits(doc', t), Hits(page, t));
    }
  }

  lemma MulAddDistrib(c: nat, a: nat, b: nat)
    ensures c * (a + b) == c * a + c * b
  {
  }

  /** With distinct terms, every term's count is its matches summed over all pages. */
  lemma {:induction false} DistinctTermsCountTheirMatches(doc: seq<Page>, terms: seq<string>, t: string)
    requires NoDup(terms) && t in terms
    ensures Tally(doc, terms)[t] == SumHits(doc, t)
  {
    TallyCountsEveryOccurrence(doc, terms, t);
    CountOfNoDup(terms, t);
  }

  /** A term's matches sum to zero exactly when no page has any. */
  lemma {:induction false} SumHitsZero(doc: seq<Page>, t: string)
    ensures SumHits(doc, t) == 0 <==> forall k :: 0 <= k < |doc| ==> Hits(doc[k], t) == 0
  {
    if doc != [] {
      var doc' := doc[..|doc| - 1];
      SumHitsZero(doc', t);
      assert forall k :: 0 <= k < |doc'| ==> doc'[k] == doc[k];
    }
  }

  /** `terms_not_found` holds exactly the terms that no page matches. */
  lemma {:induction false} TermsNotFoundAreTheUnmatched(doc: seq<Page>, terms: seq<string>, out: Path, t: string)
    ensures t in Summary(doc, terms, out).termsNotFound
      <==> t in terms && forall k :: 0 <= k < |doc| ==> Hits(doc[k], t) == 0
  {
    if t in terms {
      TallyCountsEveryOccurrence(doc, terms, t);
      SumHitsZero(doc, t);
      var c, s := Count(terms, t), SumHits(doc, t);
      assert c > 0;
      assert c * s == 0 <==> s == 0 by {
        if s > 0 {
          assert c * s >= s;
        }
      }
    }
  }

  /** The not-found terms appear among `keys` in the same order. */
  lemma {:induction false} NotFoundIsSubsequence(keys: seq<string>, counts: map<string, nat>, i: nat, j: nat)
    returns (a: nat, b: nat)
    requires i < j < |NotFound(keys, counts)|
    ensures a < b < |keys|
    ensures keys[a] == NotFound(keys, counts)[i] && keys[b] == NotFound(keys, counts)[j]
  {
    var ks := keys[..|keys| - 1];
    var r' := NotFound(ks, counts);
    if j < |r'| {
      a, b := NotFoundIsSubsequence(ks, counts, i, j);
    } else {
      var x := r'[i];
      assert x in r';
      a :| 0 <= a < |ks| && ks[a] == x;
      b := |keys| - 1;
    }
  }

  /** `terms_not_found` lists the terms in the order in which they first occur in the term list. */
  lemma {:induction false} TermsNotFoundInFirstOccurrenceOrder(doc: seq<Page>, terms: seq<string>, out: Path, i: nat, j: nat)
    requires i < j < |Summary(doc, terms, out).termsNotFound|
    ensures var nf := Summary(doc, terms, out).termsNotFound;
      nf[i] in terms && nf[j] in terms && FirstIndex(terms, nf[i]) < FirstIndex(terms, nf[j])
  {
    var a, b := NotFoundIsSubsequence(Dedup(terms), Tally(doc, terms), i, j);
    DedupFirstOccurrenceOrder(terms, a, b);
  }

  /** No term is listed twice in `terms_not_found`. */
  lemma {:induction false} TermsNotFoundAreDistinct(doc: seq<Page>, terms: seq<string>, out: Path)
    ensures NoDup(Summary(doc, terms, out).termsNotFound)
  {
    var nf := Summary(doc, terms, out).termsNotFound;
    forall i, j | 0 <= i < j < |nf|
      ensures nf[i] != nf[j]
    {
      TermsNotFoundInFirstOccurrenceOrder(doc, terms, out, i, j);
    }
  }

  /**
   * With distinct terms the dict's keys are `terms` themselves, in order, so
   * `terms_not_found` is `terms` filtered to the unmatched ones.
   */
  lemma {:induction false} DistinctTermsNotFoundKeepTheirOrder(doc: seq<Page>, terms: seq<string>, out: Path)
    requires NoDup(terms)
    ensures Summary(doc, terms, out).termsNotFound == NotFound(terms, Tally(doc, terms))
  {
    DedupOfNoDup(terms);
  }

  /**
   * `pages_modified` never exceeds `pages_total`; it equals it exactly when every
   * page has a match, and is zero exactly when no page has one.
   */
  lemma {:induction false} ModifiedPagesBounds(doc: seq<Page>, terms: seq<string>)
    ensures ModifiedPages(doc, terms) <= |doc|
    ensures ModifiedPages(doc, terms) == |doc| <==> forall k :: 0 <= k < |doc| ==> Matched(doc[k], terms)
    ensures ModifiedPages(doc, terms) == 0 <==> forall k :: 0 <= k < |doc| ==> !Matched(doc[k], terms)
  {
    if doc != [] {
      var doc' := doc[..|doc| - 1];
      ModifiedPagesBounds(doc', terms);
      assert forall k :: 0 <= k < |doc'| ==> doc'[k] == doc[k];
    }
  }

  /**
   * Every page gets one entry of work: as many annotations as rectangles were
   * found on it, and `apply_redactions` exactly when it has a match, which is
   * exactly when it got an annotation.
   */
  lemma {:induction false} WorkPerPage(doc: seq<Page>, terms: seq<string>)
    ensures |Work(doc, terms)| == |doc|
    ensures forall k :: 0 <= k < |doc| ==>
      Work(doc, terms)[k] == PageWork(Boxes(doc[k], terms), Matched(doc[k], terms))
    ensures forall k :: 0 <= k < |doc| ==> (Work(doc, terms)[k].applied <==> Work(doc, terms)[k].annotations > 0)
  {
    if doc != [] {
      var doc' := doc[..|doc| - 1];
      WorkPerPage(doc', terms);
      assert forall k :: 0 <= k < |doc'| ==> doc'[k] == doc[k];
      forall k | 0 <= k < |doc|
        ensures Work(doc, terms)[k].applied <==> Work(doc, terms)[k].annotations > 0
      {
        MatchedIffSomeTermFound(doc[k], terms);
      }
    }
  }

  /** The progress reports are `(1, total), (2, total), ..., (n, total)`. */
  lemma {:induction false} ProgressCountsPages(n: nat, total: nat)
    ensures |Progress(n, total)| == n
    ensures forall k :: 0 <= k < n ==> Progress(n, total)[k] == (k + 1, total)
  {
    if n > 0 {
      ProgressCountsPages(n - 1, total);
    }
  }
}
