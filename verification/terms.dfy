/**
 * `parse_terms`: turns the free text a user types into the list of terms to
 * redact. Lines are split on commas, every part is stripped of surrounding
 * whitespace, empty parts are dropped and so are repeats, the first
 * occurrence of each term keeping its place.
 */
module Terms {
  import opened Sequences
  import opened PyStr

  // ------------------------------------------------------- specification

  /** The comma-separated parts of the lines, in order: line by line, then part by part. */
  function SplitEach(lines: seq<string>): seq<string> {
    if lines == [] then []
    else SplitEach(lines[..|lines| - 1]) + Split(lines[|lines| - 1], ',')
  }

  lemma {:induction false} SplitEachSnoc(lines: seq<string>, i: nat)
    requires i < |lines|
    ensures SplitEach(lines[..i + 1]) == SplitEach(lines[..i]) + Split(lines[i], ',')
  {
    assert lines[..i + 1][..i] == lines[..i];
  }

  /** Every part `raw.splitlines()` and `line.split(",")` produce, before stripping. */
  function Segments(raw: string): seq<string> {
    SplitEach(SplitLines(raw))
  }

  /** Each part stripped of surrounding whitespace. */
  function StripEach(parts: seq<string>): (r: seq<string>)
    ensures |r| == |parts|
    ensures forall k :: 0 <= k < |r| ==> r[k] == Strip(parts[k])
  {
    if parts == [] then []
    else
      var init := StripEach(parts[..|parts| - 1]);
      assert forall k :: 0 <= k < |init| ==> parts[..|parts| - 1][k] == parts[k];
      init + [Strip(parts[|parts| - 1])]
  }

  /** The non-empty strings of `ts`, in order. */
  function DropEmpty(ts: seq<string>): (r: seq<string>)
    ensures forall k :: 0 <= k < |r| ==> r[k] != ""
    ensures forall t :: t in r <==> t in ts && t != ""
  {
    if ts == [] then []
    else
      var r := DropEmpty(ts[..|ts| - 1]);
      var t := ts[|ts| - 1];
      assert ts == ts[..|ts| - 1] + [t];
      if t == "" then r else r + [t]
  }

  /** The stripped, non-empty parts of the input, repeats included. */
  function Candidates(raw: string): seq<string> {
    DropEmpty(StripEach(Segments(raw)))
  }

  /** What `parse_terms(raw)` returns: a list of distinct, non-empty terms. */
  function ParsedTerms(raw: string): (terms: seq<string>)
    ensures NoDup(terms)
    ensures forall k :: 0 <= k < |terms| ==> terms[k] != ""
  {
    var terms := Dedup(Candidates(raw));
    assert forall k :: 0 <= k < |terms| ==> terms[k] in terms;
    terms
  }

  // ------------------------------------------------------------ the loop

  /** The terms the loop holds after handling `parts`, one part at a time. */
  function Absorbed(parts: seq<string>): seq<string> {
    if parts == [] then []
    else
      var before := Absorbed(parts[..|parts| - 1]);
      var term := Strip(parts[|parts| - 1]);
      if term != "" && term !in before then before + [term] else before
  }

  /** The part-by-part loop computes the specification. */
  lemma {:induction false} AbsorbedIsSpec(parts: seq<string>)
    ensures Absorbed(parts) == Dedup(DropEmpty(StripEach(parts)))
  {
    if parts != [] {
      var done, part := parts[..|parts| - 1], parts[|parts| - 1];
      assert parts == done + [part];
      AbsorbedIsSpec(done);
      var term := Strip(part);
      var stripped := StripEach(done);
      assert StripEach(parts) == stripped + [term];
      assert (stripped + [term])[..|stripped|] == stripped;
      var kept := DropEmpty(stripped);
      assert DropEmpty(stripped + [term]) == if term == "" then kept else kept + [term];
      DedupSnoc(kept, term);
      assert term in Dedup(kept) <==> term in kept by {
        if term in kept {
          var k :| 0 <= k < |kept| && kept[k] == term;
        }
        if term in Dedup(kept) {
          var k :| 0 <= k < |Dedup(kept)| && Dedup(kept)[k] == term;
        }
      }
    }
  }

  lemma {:induction false} AbsorbedSnoc(done: seq<string>, part: string)
    ensures var term := Strip(part);
      Absorbed(done + [part])
        == if term != "" && term !in Absorbed(done) then Absorbed(done) + [term] else Absorbed(done)
  {
    assert (done + [part])[..|done|] == done;
  }

  /**
   * `parse_terms(raw_input)`: the loop over lines; the parts of each line are
   * handled by `AbsorbParts`.
   */
  method ParseTerms(raw: string) returns (terms: seq<string>)
    ensures terms == ParsedTerms(raw)
  {
    var seen: set<string> := {};
    terms := [];
    var lines := SplitLines(raw);
    ghost var done: seq<string> := [];
    for i := 0 to |lines|
      invariant done == SplitEach(lines[..i])
      invariant terms == Absorbed(done)
      invariant seen == Elems(terms)
    {
      var parts := Split(lines[i], ',');
      terms, seen := AbsorbParts(parts, terms, seen, done);
      SplitEachSnoc(lines, i);
      done := done + parts;
    }
    LoopIsSpec(raw, lines, done);
  }

  /** What the line loop has absorbed once it has seen every line is the specification. */
  lemma {:induction false} LoopIsSpec(raw: string, lines: seq<string>, done: seq<string>)
    requires lines == SplitLines(raw) && done == SplitEach(lines[..|lines|])
    ensures Absorbed(done) == ParsedTerms(raw)
  {
    assert lines[..|lines|] == lines;
    AbsorbedIsSpec(done);
  }

  /**
   * The inner loop of `parse_terms`: strips each comma-separated part and
   * appends it unless it is empty or already in `seen`.
   */
  method AbsorbParts(parts: seq<string>, terms0: seq<string>, seen0: set<string>, ghost done: seq<string>)
    returns (terms: seq<string>, seen: set<string>)
    requires terms0 == Absorbed(done) && seen0 == Elems(terms0)
    ensures terms == Absorbed(done + parts) && seen == Elems(terms)
  {
    terms, seen := terms0, seen0;
    assert done + parts[..0] == done;
    for j := 0 to |parts|
      invariant terms == Absorbed(done + parts[..j])
      invariant seen == Elems(terms)
    {
      var term := Strip(parts[j]);
      AbsorbedSnoc(done + parts[..j], parts[j]);
      InElems(terms, term);
      ElemsSnoc(terms, term);
      if term != "" && term !in seen {
        seen := seen + {term};
        terms := terms + [term];
      }
      AppendSliceSnoc(done, parts, j);
    }
    assert parts[..|parts|] == parts;
  }

  // ---------------------------------------------------------- properties

  /** Each segment is one of the comma-separated parts of one of the lines. */
  lemma {:induction false} SegmentOrigin(lines: seq<string>, k: nat) returns (i: nat, m: nat)
    requires k < |SplitEach(lines)|
    ensures i < |lines| && m < |Split(lines[i], ',')|
    ensures SplitEach(lines)[k] == Split(lines[i], ',')[m]
  {
    var n := |lines|;
    var earlier := SplitEach(lines[..n - 1]);
    if k < |earlier| {
      i, m := SegmentOrigin(lines[..n - 1], k);
      assert lines[..n - 1][i] == lines[i];
    } else {
      i, m := n - 1, k - |earlier|;
    }
  }

  /**
   * Every term is non-empty, equal to its own stripped form, and free of commas
   * and line boundaries.
   */
  lemma {:induction false} TermsAreClean(raw: string, k: nat)
    requires k < |ParsedTerms(raw)|
    ensures var t := ParsedTerms(raw)[k];
      && t != ""
      && Strip(t) == t
      && forall j :: 0 <= j < |t| ==> t[j] != ',' && !IsLineBreak(t[j])
  {
    var t := ParsedTerms(raw)[k];
    var lines := SplitLines(raw);
    var segs := Segments(raw);
    var stripped := StripEach(segs);
    assert t in Candidates(raw);
    var q :| 0 <= q < |stripped| && stripped[q] == t;
    assert t == Strip(segs[q]);
    StripIdempotent(segs[q]);
    var i, m := SegmentOrigin(lines, q);
    var part := Split(lines[i], ',')[m];
    SplitPartsLackSeparator(lines[i], ',');
    LinesLackBreaks(raw);
    forall j | 0 <= j < |t|
      ensures t[j] != ',' && !IsLineBreak(t[j])
    {
      CharOfStrip(part, t[j]);
      CharOfPart(lines[i], ',', m, t[j]);
      var x :| 0 <= x < |lines[i]| && lines[i][x] == t[j];
    }
  }

  /**
   * The terms are exactly the non-empty stripped segments: each such segment
   * yields a term, and each term comes from such a segment.
   */
  lemma {:induction false} TermsAreTheStrippedSegments(raw: string)
    ensures forall k :: 0 <= k < |Segments(raw)| && Strip(Segments(raw)[k]) != "" ==>
      Strip(Segments(raw)[k]) in ParsedTerms(raw)
    ensures forall t :: t in ParsedTerms(raw) ==>
      exists k :: 0 <= k < |Segments(raw)| && Strip(Segments(raw)[k]) == t
  {
    forall k | 0 <= k < |Segments(raw)| && Strip(Segments(raw)[k]) != ""
      ensures Strip(Segments(raw)[k]) in ParsedTerms(raw)
    {
      StrippedSegmentIsTerm(raw, k);
    }
    forall t | t in ParsedTerms(raw)
      ensures exists k :: 0 <= k < |Segments(raw)| && Strip(Segments(raw)[k]) == t
    {
      var k := TermIsStrippedSegment(raw, t);
    }
  }

  lemma {:induction false} StrippedSegmentIsTerm(raw: string, k: nat)
    requires k < |Segments(raw)| && Strip(Segments(raw)[k]) != ""
    ensures Strip(Segments(raw)[k]) in ParsedTerms(raw)
  {
    var t := Strip(Segments(raw)[k]);
    var stripped := StripEach(Segments(raw));
    var candidates := Candidates(raw);
    assert stripped[k] == t;
    assert t in candidates;
    assert ParsedTerms(raw) == Dedup(candidates);
  }

  lemma {:induction false} TermIsStrippedSegment(raw: string, t: string) returns (k: nat)
    requires t in ParsedTerms(raw)
    ensures k < |Segments(raw)| && Strip(Segments(raw)[k]) == t
  {
    var stripped := StripEach(Segments(raw));
    var candidates := Candidates(raw);
    assert ParsedTerms(raw) == Dedup(candidates);
    assert t in candidates;
    k :| 0 <= k < |stripped| && stripped[k] == t;
  }

  /** Every element of `kept` occurs in `s`, and `kept` lists them in the order of their first occurrence there. */
  predicate InFirstOccurrenceOrder(kept: seq<string>, s: seq<string>) {
    forall i, j :: 0 <= i < j < |kept| ==>
      && kept[i] in s
      && kept[j] in s
      && FirstIndex(s, kept[i]) < FirstIndex(s, kept[j])
  }

  /** Terms come in the order in which they first occur among the stripped, non-empty segments. */
  lemma {:induction false} TermsInFirstOccurrenceOrder(raw: string)
    ensures InFirstOccurrenceOrder(ParsedTerms(raw), Candidates(raw))
  {
    var candidates := Candidates(raw);
    var terms := ParsedTerms(raw);
    forall i, j | 0 <= i < j < |terms|
      ensures terms[i] in candidates && terms[j] in candidates
      ensures FirstIndex(candidates, terms[i]) < FirstIndex(candidates, terms[j])
    {
      assert terms[i] in terms && terms[j] in terms;
      DedupFirstOccurrenceOrder(candidates, i, j);
    }
  }

  lemma {:induction false} DropEmptyOfBlanks(ts: seq<string>)
    requires forall k :: 0 <= k < |ts| ==> ts[k] == ""
    ensures DropEmpty(ts) == []
  {
    if ts != [] {
      DropEmptyOfBlanks(ts[..|ts| - 1]);
    }
  }

  /** Input made only of whitespace (the empty input included) yields no terms. */
  lemma {:induction false} BlankInputHasNoTerms(raw: string)
    requires AllSpace(raw)
    ensures ParsedTerms(raw) == []
  {
    var lines := SplitLines(raw);
    var segs := Segments(raw);
    forall k | 0 <= k < |segs|
      ensures Strip(segs[k]) == ""
    {
      var i, m := SegmentOrigin(lines, k);
      var seg := segs[k];
      forall j | 0 <= j < |seg|
        ensures IsSpace(seg[j])
      {
        CharOfPart(lines[i], ',', m, seg[j]);
        CharOfLine(raw, i, seg[j]);
        var x :| 0 <= x < |raw| && raw[x] == seg[j];
      }
    }
    DropEmptyOfBlanks(StripEach(segs));
  }
}
