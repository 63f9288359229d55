/** `findClosingTag` (src/extension.ts:248-309): from the line of the opening tag, scan forward
    keeping a depth count of same-named openings and closings, line by line. */
module Matcher {
  import opened Wrappers
  import opened Text
  import opened Lexer
  import opened Document

  /** Number of same-named openings on line `l` (`lineText.match(openingTagRegex)`). */
  function Opens(lines: seq<string>, n: string, l: nat): nat
    requires l < |lines|
  {
    Count(NamedOpeningTag(n), lines[l])
  }

  /** Number of `</name>` closings on line `l` (`lineText.match(closingTagRegex)`). */
  function Closes(lines: seq<string>, n: string, l: nat): nat
    requires l < |lines|
  {
    Count(NamedClosingTag(n), lines[l])
  }

  /** Openings minus closings over the lines [lo, hi). */
  function Net(lines: seq<string>, n: string, lo: nat, hi: nat): int
    requires lo <= hi <= |lines|
    decreases hi - lo
  {
    if hi == lo then 0 else Net(lines, n, lo, hi - 1) + Opens(lines, n, hi - 1) - Closes(lines, n, hi - 1)
  }

  /** The depth count once line `k` has been scanned, starting from line `from`: the net change
      of every line scanned. The count starts at 1 for the opening tag, and that same tag is
      discounted among the openings of line `from`, so the two cancel. */
  function DepthAfter(lines: seq<string>, n: string, from: nat, k: nat): int
    requires from <= k < |lines|
  {
    Net(lines, n, from, k + 1)
  }

  /** Line `k` has a closing tag and brings the depth to exactly 0. */
  predicate Settles(lines: seq<string>, n: string, from: nat, k: nat)
    requires from <= k < |lines|
  {
    Closes(lines, n, k) > 0 && DepthAfter(lines, n, from, k) == 0
  }

  /** The first line at or after `lo` that settles the depth. */
  function FirstSettling(lines: seq<string>, n: string, from: nat, lo: nat): (r: Option<nat>)
    requires from <= lo <= |lines|
    ensures r.Some? ==> lo <= r.value < |lines| && Settles(lines, n, from, r.value)
    decreases |lines| - lo
  {
    if lo == |lines| then None
    else if Settles(lines, n, from, lo) then Some(lo)
    else FirstSettling(lines, n, from, lo + 1)
  }

  /** `FirstSettling` finds the first settling line, and there is none exactly when it is
      empty. */
  lemma {:induction false} FirstSettlingIsFirst(lines: seq<string>, n: string, from: nat, lo: nat)
    requires from <= lo <= |lines|
    ensures FirstSettling(lines, n, from, lo).Some? ==>
      forall k :: lo <= k < FirstSettling(lines, n, from, lo).value ==> !Settles(lines, n, from, k)
    ensures FirstSettling(lines, n, from, lo).None? <==>
      forall k :: lo <= k < |lines| ==> !Settles(lines, n, from, k)
    decreases |lines| - lo
  {
    if lo < |lines| && !Settles(lines, n, from, lo) {
      FirstSettlingIsFirst(lines, n, from, lo + 1);
    }
  }

  /** A settling line with no settling line before it is the one `FirstSettling` finds. */
  lemma {:induction false} FirstSettlingAt(lines: seq<string>, n: string, from: nat, lo: nat, k: nat)
    requires from <= lo <= k < |lines|
    requires Settles(lines, n, from, k) && forall j :: lo <= j < k ==> !Settles(lines, n, from, j)
    ensures FirstSettling(lines, n, from, lo) == Some(k)
    decreases k - lo
  {
    if lo < k {
      FirstSettlingAt(lines, n, from, lo + 1, k);
    }
  }

  /** The last line in [lo, hi) that has a closing tag. */
  function LastClosingLine(lines: seq<string>, n: string, lo: nat, hi: nat): (r: Option<nat>)
    requires lo <= hi <= |lines|
    ensures r.Some? ==> lo <= r.value < hi && Closes(lines, n, r.value) > 0
    decreases hi - lo
  {
    if hi == lo then None
    else if Closes(lines, n, hi - 1) > 0 then Some(hi - 1)
    else LastClosingLine(lines, n, lo, hi - 1)
  }

  /** `LastClosingLine` finds the last line with a closing tag, and there is none exactly when
      it is empty. */
  lemma {:induction false} LastClosingLineIsLast(lines: seq<string>, n: string, lo: nat, hi: nat)
    requires lo <= hi <= |lines|
    ensures LastClosingLine(lines, n, lo, hi).Some? ==>
      forall k :: LastClosingLine(lines, n, lo, hi).value < k < hi ==> Closes(lines, n, k) == 0
    ensures LastClosingLine(lines, n, lo, hi).None? <==> forall k :: lo <= k < hi ==> Closes(lines, n, k) == 0
    decreases hi - lo
  {
    if lo < hi && Closes(lines, n, hi - 1) == 0 {
      LastClosingLineIsLast(lines, n, lo, hi - 1);
    }
  }

  /** The range of the last closing tag on line `l`. */
  function LastClosingOn(lines: seq<string>, n: string, l: nat): Range
    requires l < |lines| && Closes(lines, n, l) > 0
  {
    var ms := Matches(NamedClosingTag(n), lines[l]);
    HitRange(l, ms[|ms| - 1])
  }

  /** `tagCount` before line `k` is scanned. */
  function DepthBefore(lines: seq<string>, n: string, from: nat, k: nat): int
    requires from <= k <= |lines|
  {
    if k == from then 1 else DepthAfter(lines, n, from, k - 1)
  }

  /** `lastClosingTag` once the lines [from, k) have been scanned: the last closing tag of the
      last of them that has one. */
  function LastClosingSeen(lines: seq<string>, n: string, from: nat, k: nat): Option<Range>
    requires from <= k <= |lines|
  {
    match LastClosingLine(lines, n, from, k)
    case Some(l) => Some(LastClosingOn(lines, n, l))
    case None => None
  }

  /** The closing tag the scan from line `from` settles on: the last closing tag of the first
      line that brings the depth to 0; failing that, the last closing tag of the last line that
      has one. */
  function ClosingFrom(lines: seq<string>, n: string, from: nat): Option<Range>
    requires from <= |lines|
  {
    match FirstSettling(lines, n, from, from)
    case Some(k) => Some(LastClosingOn(lines, n, k))
    case None => LastClosingSeen(lines, n, from, |lines|)
  }

  /** The closing tag `findClosingTag` settles on: none when no name can be taken from the
      opening range's text, else the one the scan from the opening tag's line settles on. */
  function MatchClosing(lines: seq<string>, opening: Range): Option<Range>
    requires ValidRange(lines, opening)
  {
    match ExtractTagName(TextIn(lines, opening))
    case None => None
    case Some(n) => ClosingFrom(lines, n, opening.start.line)
  }

  /** What scanning line `k` does to the depth count, the first settling line and the last
      closing tag seen. */
  lemma ScanStep(lines: seq<string>, n: string, from: nat, k: nat)
    requires from <= k < |lines|
    ensures DepthAfter(lines, n, from, k)
      == DepthBefore(lines, n, from, k) + Opens(lines, n, k) - (if k == from then 1 else 0) - Closes(lines, n, k)
    ensures DepthBefore(lines, n, from, k + 1) == DepthAfter(lines, n, from, k)
    ensures FirstSettling(lines, n, from, k) == if Settles(lines, n, from, k) then Some(k) else FirstSettling(lines, n, from, k + 1)
    ensures LastClosingSeen(lines, n, from, k + 1)
      == if Closes(lines, n, k) > 0 then Some(LastClosingOn(lines, n, k)) else LastClosingSeen(lines, n, from, k)
  {
    assert Net(lines, n, from, k + 1) == Net(lines, n, from, k) + Opens(lines, n, k) - Closes(lines, n, k);
  }

  /** `findClosingTag` (src/extension.ts:248-309): take the tag name from the opening tag's
      text, then scan forward from its line. */
  method FindClosingTag(lines: seq<string>, openingTagRange: Range) returns (r: Option<Range>)
    requires ValidRange(lines, openingTagRange)
    ensures r == MatchClosing(lines, openingTagRange)
  {
    var openingTagText := TextIn(lines, openingTagRange);
    var tagNameMatch := ExtractTagName(openingTagText);
    if tagNameMatch.None? {
      return None;
    }
    r := ScanForClosingTag(lines, tagNameMatch.value, openingTagRange.start.line);
  }

  /** The loop of `findClosingTag` (src/extension.ts:259-308): line by line from the opening
      tag's line, count openings and closings of `tagName`, and stop at the first line with a
      closing tag that brings the count to 0. */
  method ScanForClosingTag(lines: seq<string>, tagName: string, startLine: nat) returns (r: Option<Range>)
    requires startLine <= |lines|
    ensures r == ClosingFrom(lines, tagName, startLine)
  {
    ghost var from := startLine;
    var lineNumber := startLine;
    var tagCount: int := 1;
    var lastClosingTag: Option<Range> := None;

    while lineNumber < |lines|
      invariant from <= lineNumber <= |lines|
      invariant tagCount == DepthBefore(lines, tagName, from, lineNumber)
      invariant FirstSettling(lines, tagName, from, from) == FirstSettling(lines, tagName, from, lineNumber)
      invariant lastClosingTag == LastClosingSeen(lines, tagName, from, lineNumber)
      decreases |lines| - lineNumber
    {
      var lineText := lines[lineNumber];
      var openingMatches := Matches(NamedOpeningTag(tagName), lineText);
      var closingMatches := Matches(NamedClosingTag(tagName), lineText);

      if lineNumber == startLine {
        tagCount := tagCount + |openingMatches| - 1;
      } else {
        tagCount := tagCount + |openingMatches|;
      }
      tagCount := tagCount - |closingMatches|;
      ScanStep(lines, tagName, from, lineNumber);
      assert |openingMatches| == Opens(lines, tagName, lineNumber);
      assert |closingMatches| == Closes(lines, tagName, lineNumber);
      assert tagCount == DepthAfter(lines, tagName, from, lineNumber);

      if |closingMatches| > 0 {
        // `[...lineText.matchAll(closingTagRegex)].pop()`: the same matches that were counted.
        var lastClosingTagMatch := closingMatches[|closingMatches| - 1];
        lastClosingTag := Some(HitRange(lineNumber, lastClosingTagMatch));
        assert lastClosingTag == Some(LastClosingOn(lines, tagName, lineNumber));
        if tagCount == 0 {
          return lastClosingTag;
        }
      }
      lineNumber := lineNumber + 1;
    }
    return lastClosingTag;
  }

  /** `MatchClosing` is empty exactly when no name can be taken from the opening range or no
      line from the opening tag's line on has a closing tag. */
  lemma MatchClosingNone(lines: seq<string>, opening: Range)
    requires ValidRange(lines, opening)
    ensures MatchClosing(lines, opening).None? <==>
      (ExtractTagName(TextIn(lines, opening)).None? ||
        forall k :: opening.start.line <= k < |lines| ==>
          Closes(lines, ExtractTagName(TextIn(lines, opening)).value, k) == 0)
  {
    var t := ExtractTagName(TextIn(lines, opening));
    if t.Some? {
      var n, from := t.value, opening.start.line;
      FirstSettlingIsFirst(lines, n, from, from);
      LastClosingLineIsLast(lines, n, from, |lines|);
      if forall k :: from <= k < |lines| ==> Closes(lines, n, k) == 0 {
        assert FirstSettling(lines, n, from, from).None?;
        assert LastClosingLine(lines, n, from, |lines|).None?;
      } else {
        var k :| from <= k < |lines| && Closes(lines, n, k) > 0;
        assert LastClosingLine(lines, n, from, |lines|).Some?;
      }
    }
  }

  /** The last closing tag on a line is a one-line range on that line whose text is `</name>`
      under ASCII case folding. */
  lemma LastClosingOnIsClosingTag(lines: seq<string>, n: string, k: nat)
    requires k < |lines| && Closes(lines, n, k) > 0
    ensures var c := LastClosingOn(lines, n, k);
      IsLexemeRange(lines, NamedClosingTag(n), c) && FoldEq(TextIn(lines, c), "</" + n + ">")
      && c.start.line == k
  {
    var ms := Matches(NamedClosingTag(n), lines[k]);
    HitRangeIsLexeme(lines, NamedClosingTag(n), k, |ms| - 1);
    ClosingLexemeIsFoldedText(n, TextIn(lines, LastClosingOn(lines, n, k)));
  }

  /** What `MatchClosing` settles on is a one-line range, on or below the opening tag's line,
      whose text is `</name>` under ASCII case folding. */
  lemma MatchClosingIsClosingTag(lines: seq<string>, opening: Range)
    requires ValidRange(lines, opening)
    ensures MatchClosing(lines, opening).Some? ==>
      var n, c := ExtractTagName(TextIn(lines, opening)).value, MatchClosing(lines, opening).value;
      IsLexemeRange(lines, NamedClosingTag(n), c) && FoldEq(TextIn(lines, c), "</" + n + ">")
      && opening.start.line <= c.start.line
  {
    var t := ExtractTagName(TextIn(lines, opening));
    if t.Some? {
      var n, from := t.value, opening.start.line;
      var s := FirstSettling(lines, n, from, from);
      if s.Some? {
        assert MatchClosing(lines, opening) == Some(LastClosingOn(lines, n, s.value));
        LastClosingOnIsClosingTag(lines, n, s.value);
      } else {
        var l := LastClosingLine(lines, n, from, |lines|);
        if l.Some? {
          assert MatchClosing(lines, opening) == Some(LastClosingOn(lines, n, l.value));
          LastClosingOnIsClosingTag(lines, n, l.value);
        }
      }
    }
  }

  /** Line `i` of the nested document: `<name>` in the first `count` lines, `</name>` after. */
  predicate NestedLine(lines: seq<string>, n: string, count: nat, i: nat) {
    i < |lines| && lines[i] == if i < count then "<" + n + ">" else "</" + n + ">"
  }

  /** The document is `count` lines `<name>` followed by `count` lines `</name>`. */
  predicate IsNestedDocument(lines: seq<string>, n: string, count: nat) {
    |lines| == 2 * count && forall i: nat :: i < |lines| ==> NestedLine(lines, n, count, i)
  }

  /** The tag counts of the nested document: one opening per line in the first `count` lines,
      one closing per line in the next `count`. */
  predicate NestedProfile(lines: seq<string>, n: string, count: nat) {
    |lines| == 2 * count
    && forall j :: 0 <= j < 2 * count ==>
         Opens(lines, n, j) == (if j < count then 1 else 0) && Closes(lines, n, j) == (if j < count then 0 else 1)
  }

  /** Each line of the nested document holds one tag, an opening one in the first half and a
      closing one in the second. */
  lemma NestedDocumentProfile(lines: seq<string>, n: string, count: nat)
    requires IsTagName(n) && IsNestedDocument(lines, n, count)
    ensures NestedProfile(lines, n, count)
  {
    OpeningLineMatches(n);
    ClosingLineMatches(n);
    forall j | 0 <= j < 2 * count
      ensures Opens(lines, n, j) == (if j < count then 1 else 0) && Closes(lines, n, j) == (if j < count then 0 else 1)
    {
      assert NestedLine(lines, n, count, j);
      if j < count {
        assert lines[j] == "<" + n + ">";
      } else {
        assert lines[j] == "</" + n + ">";
      }
    }
  }

  /** Under that profile the depth climbs by one per opening line and falls by one per closing
      line. */
  lemma {:induction false} ProfileNet(lines: seq<string>, n: string, count: nat, k: nat)
    requires NestedProfile(lines, n, count) && k <= 2 * count
    ensures Net(lines, n, 0, k) == if k <= count then k else 2 * count - k
  {
    if k > 0 {
      ProfileNet(lines, n, count, k - 1);
      assert Net(lines, n, 0, k) == Net(lines, n, 0, k - 1) + Opens(lines, n, k - 1) - Closes(lines, n, k - 1);
    }
  }

  /** Under that profile the first line to bring the depth back to 0 is the last one. */
  lemma ProfileSettlesLast(lines: seq<string>, n: string, count: nat)
    requires NestedProfile(lines, n, count) && count >= 1
    ensures FirstSettling(lines, n, 0, 0) == Some(2 * count - 1)
  {
    var last := 2 * count - 1;
    forall k | 0 <= k < last ensures !Settles(lines, n, 0, k) {
      ProfileNet(lines, n, count, k + 1);
    }
    ProfileNet(lines, n, count, last + 1);
    FirstSettlingAt(lines, n, 0, 0, last);
  }

  /** The first line of the nested document is the opening tag, and names `n`. */
  lemma NestedOpeningText(lines: seq<string>, n: string, count: nat)
    requires IsTagName(n) && IsNestedDocument(lines, n, count) && count >= 1
    ensures ValidRange(lines, Range(Position(0, 0), Position(0, |n| + 2)))
    ensures TextIn(lines, Range(Position(0, 0), Position(0, |n| + 2))) == "<" + n + ">"
    ensures ExtractTagName(TextIn(lines, Range(Position(0, 0), Position(0, |n| + 2)))) == Some(n)
  {
    assert NestedLine(lines, n, count, 0);
    assert lines[0] == "<" + n + ">";
    assert lines[0][0..|n| + 2] == lines[0];
    ExtractFromOpeningLine(n);
  }

  /** The nested document settles on its last line. */
  lemma NestedSettlesLast(lines: seq<string>, n: string, count: nat)
    requires IsTagName(n) && IsNestedDocument(lines, n, count) && count >= 1
    ensures FirstSettling(lines, n, 0, 0) == Some(2 * count - 1)
  {
    NestedDocumentProfile(lines, n, count);
    ProfileSettlesLast(lines, n, count);
  }

  /** The last line of the nested document is the closing tag. */
  lemma NestedLastClosing(lines: seq<string>, n: string, count: nat)
    requires IsTagName(n) && IsNestedDocument(lines, n, count) && count >= 1
    ensures Closes(lines, n, 2 * count - 1) > 0
    ensures LastClosingOn(lines, n, 2 * count - 1) == Range(Position(2 * count - 1, 0), Position(2 * count - 1, |n| + 3))
  {
    ClosingLineMatches(n);
    assert NestedLine(lines, n, count, 2 * count - 1);
    assert lines[2 * count - 1] == "</" + n + ">";
  }

  /** `MatchClosing` when the scan settles on line `k`. */
  lemma MatchClosingSettled(lines: seq<string>, opening: Range, n: string, k: nat, c: Range)
    requires ValidRange(lines, opening)
    requires ExtractTagName(TextIn(lines, opening)) == Some(n)
    requires FirstSettling(lines, n, opening.start.line, opening.start.line) == Some(k)
    requires LastClosingOn(lines, n, k) == c
    ensures MatchClosing(lines, opening) == Some(c)
  {
  }

  /** For `N` same-named tags nested one per line, the match of the outermost opening tag is
      the outermost closing tag. */
  lemma NestedMatchesOutermost(lines: seq<string>, n: string, count: nat)
    requires IsTagName(n) && IsNestedDocument(lines, n, count) && count >= 1
    ensures ValidRange(lines, Range(Position(0, 0), Position(0, |n| + 2)))
    ensures MatchClosing(lines, Range(Position(0, 0), Position(0, |n| + 2)))
      == Some(Range(Position(2 * count - 1, 0), Position(2 * count - 1, |n| + 3)))
  {
    var opening := Range(Position(0, 0), Position(0, |n| + 2));
    var closing := Range(Position(2 * count - 1, 0), Position(2 * count - 1, |n| + 3));
    assert ValidRange(lines, opening) && ExtractTagName(TextIn(lines, opening)) == Some(n) by {
      NestedOpeningText(lines, n, count);
    }
    assert FirstSettling(lines, n, 0, 0) == Some(2 * count - 1) by {
      NestedSettlesLast(lines, n, count);
    }
    assert LastClosingOn(lines, n, 2 * count - 1) == closing by {
      NestedLastClosing(lines, n, count);
    }
    MatchClosingSettled(lines, opening, n, 2 * count - 1, closing);
  }
}
