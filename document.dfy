/** The editor's view of a document: positions, ranges, `getText` over a range and the
    indentation of a line. The document is its sequence of line texts (without line breaks);
    `getText` joins lines with "\n". */
module Document {
  import opened Text
  import opened Lexer

  /** `vscode.Position`: a zero-based line and a character offset within the line. */
  datatype Position = Position(line: nat, character: nat)

  /** `vscode.Range`: from `start` up to, not including, `end`. */
  datatype Range = Range(start: Position, end: Position)

  /** `a.isBefore(b)`: lexicographic order on (line, character). */
  predicate Before(a: Position, b: Position) {
    a.line < b.line || (a.line == b.line && a.character < b.character)
  }

  predicate ValidPosition(lines: seq<string>, p: Position) {
    p.line < |lines| && p.character <= |lines[p.line]|
  }

  predicate ValidRange(lines: seq<string>, r: Range) {
    ValidPosition(lines, r.start) && ValidPosition(lines, r.end) && !Before(r.end, r.start)
  }

  predicate SingleLine(r: Range) {
    r.start.line == r.end.line
  }

  /** `new vscode.Range(a, b)`: the two ends are put in order, so a range never runs backwards. */
  function RangeOf(a: Position, b: Position): (r: Range)
    ensures !Before(r.end, r.start)
    ensures (r.start == a && r.end == b) || (r.start == b && r.end == a)
    ensures !Before(b, a) ==> r == Range(a, b)
  {
    if Before(b, a) then Range(b, a) else Range(a, b)
  }

  /** The range of a match found on line `l`. */
  function HitRange(l: nat, h: Hit): Range {
    Range(Position(l, h.start), Position(l, h.end))
  }

  /** The lines `lo` until `hi`, each followed by "\n". */
  function LinesBetween(lines: seq<string>, lo: nat, hi: nat): string
    requires lo <= hi <= |lines|
    decreases hi - lo
  {
    if lo == hi then "" else lines[lo] + "\n" + LinesBetween(lines, lo + 1, hi)
  }

  /** `document.getText(range)`. */
  function TextIn(lines: seq<string>, r: Range): string
    requires ValidRange(lines, r)
  {
    if r.start.line == r.end.line then
      lines[r.start.line][r.start.character..r.end.character]
    else
      lines[r.start.line][r.start.character..] + "\n"
      + LinesBetween(lines, r.start.line + 1, r.end.line)
      + lines[r.end.line][..r.end.character]
  }

  /** Every line of the document is free of line breaks. */
  predicate LineTexts(lines: seq<string>) {
    forall l :: 0 <= l < |lines| ==> NoLineFeed(lines[l])
  }

  /** The lines `lo` until `hi`, each followed by "\n", then a last piece `b`, split back into
      those lines and `b`. */
  lemma {:induction false} LinesBetweenPieces(lines: seq<string>, lo: nat, hi: nat, b: string)
    requires lo <= hi <= |lines| && LineTexts(lines) && NoLineFeed(b)
    ensures Split(LinesBetween(lines, lo, hi) + b) == lines[lo..hi] + [b]
    decreases hi - lo
  {
    if lo == hi {
      assert LinesBetween(lines, lo, hi) + b == b;
      SplitSingle(b);
    } else {
      var rest := LinesBetween(lines, lo + 1, hi) + b;
      assert LinesBetween(lines, lo, hi) + b == lines[lo] + "\n" + rest;
      SplitAppend(lines[lo], rest);
      SplitSingle(lines[lo]);
      LinesBetweenPieces(lines, lo + 1, hi, b);
      assert lines[lo..hi] == [lines[lo]] + lines[lo + 1..hi];
    }
  }

  /** The text of a range: the covered part of its one line, or, split at its line breaks, the
      rest of the first line, every line in between and the start of the last line. */
  lemma TextInPieces(lines: seq<string>, r: Range)
    requires ValidRange(lines, r) && LineTexts(lines)
    ensures SingleLine(r) ==>
      TextIn(lines, r) == lines[r.start.line][r.start.character..r.end.character]
    ensures !SingleLine(r) ==>
      Split(TextIn(lines, r))
        == [lines[r.start.line][r.start.character..]] + lines[r.start.line + 1..r.end.line]
           + [lines[r.end.line][..r.end.character]]
  {
    if !SingleLine(r) {
      var first := lines[r.start.line][r.start.character..];
      var last := lines[r.end.line][..r.end.character];
      var between := LinesBetween(lines, r.start.line + 1, r.end.line);
      assert NoLineFeed(first) && NoLineFeed(last) by {
        assert NoLineFeed(lines[r.start.line]) && NoLineFeed(lines[r.end.line]);
      }
      assert TextIn(lines, r) == first + "\n" + (between + last);
      SplitAppend(first, between + last);
      SplitSingle(first);
      LinesBetweenPieces(lines, r.start.line + 1, r.end.line, last);
    }
  }

  /** `getIndentation` (src/extension.ts:155-159): the longest prefix of the line made of
      whitespace. */
  function GetIndentation(lines: seq<string>, lineNumber: nat): (r: string)
    requires lineNumber < |lines|
    ensures |r| <= |lines[lineNumber]| && r == lines[lineNumber][..|r|]
    ensures AllSpace(r)
    ensures |r| == |lines[lineNumber]| || !IsJsSpace(lines[lineNumber][|r|])
  {
    lines[lineNumber][..LeadingSpaceLength(lines[lineNumber])]
  }

  /** The indentation is the only whitespace prefix of the line that is not followed by more
      whitespace. */
  lemma GetIndentationUnique(lines: seq<string>, lineNumber: nat, n: nat)
    requires lineNumber < |lines| && n <= |lines[lineNumber]|
    requires AllSpace(lines[lineNumber][..n])
    requires n == |lines[lineNumber]| || !IsJsSpace(lines[lineNumber][n])
    ensures GetIndentation(lines, lineNumber) == lines[lineNumber][..n]
  {
    var line, r := lines[lineNumber], GetIndentation(lines, lineNumber);
    if |r| < n {
      assert line[..n][|r|] == line[|r|];
    }
  }

  /** A range produced by the tag engine: one line, inside the document, bounding a lexeme of
      pattern `p`. */
  predicate IsLexemeRange(lines: seq<string>, p: Pattern, r: Range) {
    SingleLine(r) && ValidRange(lines, r) && IsLexeme(p, TextIn(lines, r))
  }

  /** The range of the `k`-th match of `p` on line `l` bounds a lexeme of `p`. */
  lemma HitRangeIsLexeme(lines: seq<string>, p: Pattern, l: nat, k: nat)
    requires l < |lines| && k < |Matches(p, lines[l])|
    ensures IsLexemeRange(lines, p, HitRange(l, Matches(p, lines[l])[k]))
  {
    MatchesAreLexemes(p, lines[l], k);
  }
}
