/**
 * The three Python `str` methods the term parser relies on, with the
 * character classes written out: `splitlines()`, `split(",")` and `strip()`.
 */
module PyStr {

  /** The characters for which `str.isspace()` holds; `strip()` removes them at both ends. */
  predicate IsSpace(c: char) {
    var n := c as int;
    || 0x09 <= n <= 0x0D
    || 0x1C <= n <= 0x20
    || n == 0x85 || n == 0xA0 || n == 0x1680
    || 0x2000 <= n <= 0x200A
    || n == 0x2028 || n == 0x2029 || n == 0x202F || n == 0x205F || n == 0x3000
  }

  /** The line boundaries `str.splitlines()` recognises ("\r\n" counts as one). */
  predicate IsLineBreak(c: char) {
    var n := c as int;
    || 0x0A <= n <= 0x0D
    || 0x1C <= n <= 0x1E
    || n == 0x85 || n == 0x2028 || n == 0x2029
  }

  predicate AllSpace(s: string) {
    forall i :: 0 <= i < |s| ==> IsSpace(s[i])
  }

  // ---------------------------------------------------------------- strip()

  /** `s.lstrip()`: a suffix of `s`, the removed prefix being whitespace. */
  function LStrip(s: string): (r: string)
    ensures |r| <= |s| && r == s[|s| - |r|..]
    ensures AllSpace(s[..|s| - |r|])
    ensures r == [] || !IsSpace(r[0])
  {
    if s != [] && IsSpace(s[0]) then
      var r := LStrip(s[1..]);
      assert s[..|s| - |r|] == [s[0]] + s[1..][..|s| - 1 - |r|];
      r
    else s
  }

  /** `s.rstrip()`: a prefix of `s`, the removed suffix being whitespace. */
  function RStrip(s: string): (r: string)
    ensures |r| <= |s| && r == s[..|r|]
    ensures AllSpace(s[|r|..])
    ensures r == [] || !IsSpace(r[|r| - 1])
  {
    if s != [] && IsSpace(s[|s| - 1]) then
      var r := RStrip(s[..|s| - 1]);
      assert s[|r|..] == s[..|s| - 1][|r|..] + [s[|s| - 1]];
      r
    else s
  }

  /** `s.strip()`: whitespace removed at both ends and nowhere else. */
  function Strip(s: string): (r: string)
    ensures |r| <= |s|
    ensures r == [] || (!IsSpace(r[0]) && !IsSpace(r[|r| - 1]))
    ensures r == [] <==> AllSpace(s)
  {
    StripShape(s);
    RStrip(LStrip(s))
  }

  lemma {:induction false} StripShape(s: string)
    ensures var r := RStrip(LStrip(s));
      && (r == [] || !IsSpace(r[0]))
      && (r == [] <==> AllSpace(s))
  {
    var l := LStrip(s);
    var r := RStrip(l);
    if l == [] {
      assert s[..|s|] == s;
    } else {
      assert s[|s| - |l|] == l[0];
      assert !AllSpace(s);
      assert l[0..] == l;
    }
  }

  /** Stripping only removes characters: what is left is a slice of the input. */
  lemma {:induction false} StripIsSlice(s: string)
    ensures var r := Strip(s); var o := |s| - |LStrip(s)|;
      o + |r| <= |s| && r == s[o..o + |r|]
  {
    var l := LStrip(s);
    var r := RStrip(l);
    assert r == l[..|r|];
  }

  /** Every character of a stripped string is a character of the input. */
  lemma {:induction false} CharOfStrip(s: string, c: char)
    requires c in Strip(s)
    ensures c in s
  {
    StripIsSlice(s);
    var r, o := Strip(s), |s| - |LStrip(s)|;
    var k :| 0 <= k < |r| && r[k] == c;
    assert s[o + k] == c;
  }

  /** A string without whitespace at its ends is its own strip. */
  lemma {:induction false} StripFixedPoint(s: string)
    requires s == [] || (!IsSpace(s[0]) && !IsSpace(s[|s| - 1]))
    ensures Strip(s) == s
  {
    assert LStrip(s) == s;
  }

  /** Stripping twice is stripping once. */
  lemma {:induction false} StripIdempotent(s: string)
    ensures Strip(Strip(s)) == Strip(s)
  {
    StripFixedPoint(Strip(s));
  }

  // ------------------------------------------------------------- split(sep)

  /** `s.split(sep)` for a one-character separator: at least one part, none holding `sep`. */
  function Split(s: string, sep: char): (parts: seq<string>)
    ensures |parts| >= 1
  {
    if s == [] then [[]]
    else
      var rest := Split(s[1..], sep);
      if s[0] == sep then [[]] + rest
      else [[s[0]] + rest[0]] + rest[1..]
  }

  /** No part of a split holds the separator. */
  lemma {:induction false} SplitPartsLackSeparator(s: string, sep: char)
    ensures forall k :: 0 <= k < |Split(s, sep)| ==> sep !in Split(s, sep)[k]
  {
    if s != [] {
      SplitPartsLackSeparator(s[1..], sep);
    }
  }

  /** `sep.join(parts)`. */
  function Join(parts: seq<string>, sep: char): string {
    if parts == [] then []
    else if |parts| == 1 then parts[0]
    else parts[0] + [sep] + Join(parts[1..], sep)
  }

  /** Joining the parts of a split gives back the string. */
  lemma {:induction false} JoinSplit(s: string, sep: char)
    ensures Join(Split(s, sep), sep) == s
  {
    if s != [] {
      var rest := Split(s[1..], sep);
      JoinSplit(s[1..], sep);
      if s[0] == sep {
        assert Split(s, sep)[1..] == rest;
      } else {
        var parts := Split(s, sep);
        assert parts[1..] == rest[1..];
        if |rest| == 1 {
          assert Join(parts, sep) == [s[0]] + rest[0];
        } else {
          assert Join(parts, sep) == [s[0]] + rest[0] + [sep] + Join(rest[1..], sep);
        }
      }
    }
  }

  /** Splitting a string whose prefix holds no separator extends the first part. */
  lemma {:induction false} SplitPrefix(a: string, b: string, sep: char)
    requires sep !in a
    ensures Split(a + b, sep) == [a + Split(b, sep)[0]] + Split(b, sep)[1..]
  {
    if a == [] {
      assert a + b == b;
      assert a + Split(b, sep)[0] == Split(b, sep)[0];
      assert [Split(b, sep)[0]] + Split(b, sep)[1..] == Split(b, sep);
    } else {
      var sb := Split(b, sep);
      assert (a + b)[0] == a[0] != sep;
      assert (a + b)[1..] == a[1..] + b;
      SplitPrefix(a[1..], b, sep);
      var rest := Split(a[1..] + b, sep);
      assert rest[0] == a[1..] + sb[0];
      assert rest[1..] == sb[1..];
      assert Split(a + b, sep) == [[a[0]] + rest[0]] + rest[1..];
      assert [a[0]] + (a[1..] + sb[0]) == a + sb[0];
    }
  }

  /** Splitting a join of separator-free parts gives back the parts. */
  lemma {:induction false} SplitJoin(parts: seq<string>, sep: char)
    requires |parts| >= 1
    requires forall k :: 0 <= k < |parts| ==> sep !in parts[k]
    ensures Split(Join(parts, sep), sep) == parts
  {
    if |parts| == 1 {
      SplitPrefix(parts[0], [], sep);
      assert parts[0] + [] == parts[0];
    } else {
      var tail := Join(parts[1..], sep);
      SplitJoin(parts[1..], sep);
      assert parts[0] + [sep] + tail == parts[0] + ([sep] + tail);
      SplitPrefix(parts[0], [sep] + tail, sep);
      assert ([sep] + tail)[0] == sep;
      assert ([sep] + tail)[1..] == tail;
      assert Split([sep] + tail, sep) == [[]] + parts[1..];
      assert parts[0] + [] == parts[0];
      assert parts == [parts[0]] + parts[1..];
    }
  }

  /** Every character of a part is a character of the joined string. */
  lemma {:induction false} CharOfPartInJoin(parts: seq<string>, sep: char, k: nat, c: char)
    requires k < |parts| && c in parts[k]
    ensures c in Join(parts, sep)
  {
    if k > 0 {
      CharOfPartInJoin(parts[1..], sep, k - 1, c);
    }
  }

  // ----------------------------------------------------------- splitlines()

  /** The length of the first line of `s`: the index of its first line boundary, or |s|. */
  function LineEnd(s: string): (i: nat)
    ensures i <= |s|
    ensures forall k :: 0 <= k < i ==> !IsLineBreak(s[k])
    ensures i < |s| ==> IsLineBreak(s[i])
  {
    if s == [] || IsLineBreak(s[0]) then 0 else 1 + LineEnd(s[1..])
  }

  /** The number of characters the boundary at `LineEnd(s)` takes: 2 for "\r\n", else 1. */
  function BreakWidth(s: string, i: nat): nat
    requires i < |s|
  {
    if i + 1 < |s| && s[i] == '\r' && s[i + 1] == '\n' then 2 else 1
  }

  /**
   * `s.splitlines()`: the lines of `s` without their boundaries; a boundary at
   * the very end does not start another (empty) line, and "" has no lines.
   */
  function SplitLines(s: string): (lines: seq<string>)
    ensures lines == [] <==> s == []
    decreases |s|
  {
    if s == [] then []
    else
      var i := LineEnd(s);
      if i == |s| then [s]
      else [s[..i]] + SplitLines(s[i + BreakWidth(s, i)..])
  }

  /**
   * Where the lines divide: for text whose only boundaries are "\n" and that
   * does not end in one, joining the lines with "\n" gives the text back, so
   * every boundary ends exactly one line.
   */
  lemma {:induction false} SplitLinesJoin(s: string)
    requires forall k :: 0 <= k < |s| && IsLineBreak(s[k]) ==> s[k] == '\n'
    requires s == [] || s[|s| - 1] != '\n'
    ensures Join(SplitLines(s), '\n') == s
    decreases |s|
  {
    if s != [] {
      var i := LineEnd(s);
      if i < |s| {
        var rest := s[i + 1..];
        assert BreakWidth(s, i) == 1;
        forall k | 0 <= k < |rest| && IsLineBreak(rest[k])
          ensures rest[k] == '\n'
        {
          assert rest[k] == s[i + 1 + k];
        }
        SplitLinesJoin(rest);
        JoinCons(s[..i], SplitLines(rest), '\n');
        assert s == s[..i] + [s[i]] + rest;
      }
    }
  }

  /** Joining a first part onto at least one more. */
  lemma {:induction false} JoinCons(x: string, parts: seq<string>, sep: char)
    requires parts != []
    ensures Join([x] + parts, sep) == x + [sep] + Join(parts, sep)
  {
    assert ([x] + parts)[1..] == parts;
  }

  /** No line holds a line boundary. */
  lemma {:induction false} LinesLackBreaks(s: string)
    ensures forall k, j :: 0 <= k < |SplitLines(s)| && 0 <= j < |SplitLines(s)[k]| ==> !IsLineBreak(SplitLines(s)[k][j])
    decreases |s|
  {
    if s != [] {
      var i := LineEnd(s);
      if i < |s| {
        LinesLackBreaks(s[i + BreakWidth(s, i)..]);
      }
    }
  }

  /** The concatenation of a sequence of strings. */
  function Concat(ss: seq<string>): string {
    if ss == [] then [] else ss[0] + Concat(ss[1..])
  }

  /** The characters of `s` that are not line boundaries, in order. */
  function DropBreaks(s: string): string {
    if s == [] then []
    else (if IsLineBreak(s[0]) then [] else [s[0]]) + DropBreaks(s[1..])
  }

  lemma {:induction false} DropBreaksAppend(a: string, b: string)
    ensures DropBreaks(a + b) == DropBreaks(a) + DropBreaks(b)
  {
    if a == [] {
      assert a + b == b;
    } else {
      var head := if IsLineBreak(a[0]) then [] else [a[0]];
      assert (a + b)[0] == a[0];
      assert (a + b)[1..] == a[1..] + b;
      DropBreaksAppend(a[1..], b);
      assert DropBreaks(a + b) == head + DropBreaks(a[1..] + b);
      assert DropBreaks(a) == head + DropBreaks(a[1..]);
    }
  }

  lemma {:induction false} DropBreaksNone(s: string)
    requires forall k :: 0 <= k < |s| ==> !IsLineBreak(s[k])
    ensures DropBreaks(s) == s
  {
    if s != [] {
      DropBreaksNone(s[1..]);
    }
  }

  lemma {:induction false} DropBreaksAll(s: string)
    requires forall k :: 0 <= k < |s| ==> IsLineBreak(s[k])
    ensures DropBreaks(s) == []
  {
    if s != [] {
      DropBreaksAll(s[1..]);
    }
  }

  lemma {:induction false} ConcatCons(x: string, ss: seq<string>)
    ensures Concat([x] + ss) == x + Concat(ss)
  {
    assert ([x] + ss)[1..] == ss;
  }

  /** A line, then its boundary, then the rest: only the boundary is dropped. */
  lemma {:induction false} DropBreaksAfterLine(line: string, brk: string, rest: string)
    requires forall k :: 0 <= k < |line| ==> !IsLineBreak(line[k])
    requires forall k :: 0 <= k < |brk| ==> IsLineBreak(brk[k])
    ensures DropBreaks(line + brk + rest) == line + DropBreaks(rest)
  {
    DropBreaksNone(line);
    DropBreaksAll(brk);
    assert line + brk + rest == line + (brk + rest);
    DropBreaksAppend(line, brk + rest);
    DropBreaksAppend(brk, rest);
  }

  /** Dropping the boundaries of `s` keeps its first line and continues after the first boundary. */
  lemma {:induction false} DropBreaksFirstLine(s: string)
    requires LineEnd(s) < |s|
    ensures var i := LineEnd(s);
      DropBreaks(s) == s[..i] + DropBreaks(s[i + BreakWidth(s, i)..])
  {
    var i := LineEnd(s);
    var w := BreakWidth(s, i);
    var line, brk, rest := s[..i], s[i..i + w], s[i + w..];
    assert s == line + brk + rest;
    assert forall k :: 0 <= k < |line| ==> line[k] == s[k];
    assert brk[0] == s[i];
    assert w == 2 ==> brk[1] == '\n';
    DropBreaksAfterLine(line, brk, rest);
  }

  /** The lines hold exactly the characters of `s` that are not boundaries, in order. */
  lemma {:induction false} ConcatSplitLines(s: string)
    ensures Concat(SplitLines(s)) == DropBreaks(s)
    decreases |s|
  {
    if s != [] {
      var i := LineEnd(s);
      if i == |s| {
        DropBreaksNone(s);
        ConcatCons(s, []);
      } else {
        var rest := s[i + BreakWidth(s, i)..];
        ConcatSplitLines(rest);
        ConcatCons(s[..i], SplitLines(rest));
        DropBreaksFirstLine(s);
      }
    }
  }

  lemma {:induction false} CharOfPartInConcat(ss: seq<string>, k: nat, c: char)
    requires k < |ss| && c in ss[k]
    ensures c in Concat(ss)
  {
    if k > 0 {
      CharOfPartInConcat(ss[1..], k - 1, c);
    }
  }

  lemma {:induction false} CharOfDropBreaks(s: string, c: char)
    requires c in DropBreaks(s)
    ensures c in s
  {
    if s != [] && c != s[0] {
      CharOfDropBreaks(s[1..], c);
    }
  }

  /** Every character of a line is a character of the input. */
  lemma {:induction false} CharOfLine(s: string, k: nat, c: char)
    requires k < |SplitLines(s)| && c in SplitLines(s)[k]
    ensures c in s
  {
    CharOfPartInConcat(SplitLines(s), k, c);
    ConcatSplitLines(s);
    CharOfDropBreaks(s, c);
  }

  /** Every character of a part is a character of the split string. */
  lemma {:induction false} CharOfPart(s: string, sep: char, k: nat, c: char)
    requires k < |Split(s, sep)| && c in Split(s, sep)[k]
    ensures c in s
  {
    CharOfPartInJoin(Split(s, sep), sep, k, c);
    JoinSplit(s, sep);
  }
}
