/** `formatWrappedText` (src/extension.ts:161-187): put the wrapper tag around the content,
    inline for one-line content, otherwise on lines of their own with the content indented one
    step deeper. */
module Formatter {
  import opened Wrappers
  import opened Text

  /** `tabSize`: the width of one indentation step. */
  const TabSize: nat := 2

  /** `' '.repeat(n)`. */
  function Spaces(n: nat): (r: string)
    ensures |r| == n && forall i :: 0 <= i < n ==> r[i] == ' '
  {
    if n == 0 then "" else Spaces(n - 1) + " "
  }

  /** `<tag attributes>`, or `<tag>` when there are no attributes. */
  function OpeningTagText(tagName: string, attributes: string): string {
    if attributes != "" then "<" + tagName + " " + attributes + ">" else "<" + tagName + ">"
  }

  /** `</tag>`. */
  function ClosingTagText(tagName: string): string {
    "</" + tagName + ">"
  }

  /** A line of multi-line content: indented when it is not blank, kept as it is otherwise. */
  function IndentLine(inner: string, line: string): string {
    if Trim(line) != "" then inner + line else line
  }

  function IndentLines(inner: string, ls: seq<string>): seq<string> {
    seq(|ls|, i requires 0 <= i < |ls| => IndentLine(inner, ls[i]))
  }

  function FormatWrappedText(content: string, tagName: string, attributes: string, indentation: string): string {
    var innerIndentation := indentation + Spaces(TabSize);
    var lines := Split(content);
    var formattedLines := if |lines| == 1 then lines else IndentLines(innerIndentation, lines);
    var formattedContent := Join(formattedLines);
    var openingTag := OpeningTagText(tagName, attributes);
    if |lines| == 1 then openingTag + formattedContent + ClosingTagText(tagName)
    else openingTag + "\n" + formattedContent + "\n" + indentation + ClosingTagText(tagName)
  }

  /** One-line content is wrapped as the opening tag, the content and the closing tag. */
  lemma SingleLineText(content: string, tagName: string, attributes: string, indentation: string)
    requires NoLineFeed(content)
    ensures FormatWrappedText(content, tagName, attributes, indentation)
      == OpeningTagText(tagName, attributes) + content + ClosingTagText(tagName)
  {
    SplitSingle(content);
  }

  /** One-line content is wrapped in place, unchanged, with no line break added and exactly one
      space between the tag name and non-empty attributes. */
  lemma FormatSingleLine(content: string, tagName: string, attributes: string, indentation: string)
    requires NoLineFeed(content)
    ensures attributes == "" ==>
      FormatWrappedText(content, tagName, attributes, indentation) == "<" + tagName + ">" + content + ("</" + tagName + ">")
    ensures attributes != "" ==>
      FormatWrappedText(content, tagName, attributes, indentation)
        == "<" + tagName + " " + attributes + ">" + content + ("</" + tagName + ">")
  {
    SingleLineText(content, tagName, attributes, indentation);
  }

  /** Multi-line content is wrapped as the opening tag, a line break, the indented lines, a line
      break, and the closing tag at `indentation`. */
  lemma MultiLineText(content: string, tagName: string, attributes: string, indentation: string)
    requires !NoLineFeed(content)
    ensures FormatWrappedText(content, tagName, attributes, indentation)
      == OpeningTagText(tagName, attributes) + "\n"
         + (Join(IndentLines(indentation + Spaces(TabSize), Split(content))) + "\n" + (indentation + ClosingTagText(tagName)))
  {
    var o, f, c := OpeningTagText(tagName, attributes),
                   Join(IndentLines(indentation + Spaces(TabSize), Split(content))), ClosingTagText(tagName);
    SplitSingle(content);
    assert FormatWrappedText(content, tagName, attributes, indentation) == o + "\n" + f + "\n" + indentation + c;
    Associate(o + "\n", f, "\n", indentation, c);
  }

  lemma Associate(a: string, b: string, c: string, d: string, e: string)
    ensures a + b + c + d + e == a + (b + c + (d + e))
  {
  }

  /** The split of `a \n b \n c`, for LF-free `a` and `c`. */
  lemma SplitBetween(a: string, b: string, c: string)
    requires NoLineFeed(a) && NoLineFeed(c)
    ensures Split(a + "\n" + (b + "\n" + c)) == [a] + Split(b) + [c]
  {
    SplitAppend(a, b + "\n" + c);
    SplitAppend(b, c);
    SplitSingle(a);
    SplitSingle(c);
  }

  /** The content lines of multi-line content, indented, contain no line feed. */
  lemma IndentedContentLines(content: string, inner: string)
    requires NoLineFeed(inner)
    ensures Split(Join(IndentLines(inner, Split(content)))) == IndentLines(inner, Split(content))
  {
    SplitPiecesHaveNoLineFeed(content);
    IndentedLinesHaveNoLineFeed(inner, Split(content));
    SplitJoin(IndentLines(inner, Split(content)));
  }

  /** The lines of the wrapped multi-line text. */
  lemma MultiLineSplit(content: string, tagName: string, attributes: string, indentation: string)
    requires !NoLineFeed(content)
    requires NoLineFeed(tagName) && NoLineFeed(attributes) && NoLineFeed(indentation)
    ensures Split(FormatWrappedText(content, tagName, attributes, indentation))
      == [OpeningTagText(tagName, attributes)] + IndentLines(indentation + Spaces(TabSize), Split(content))
         + [indentation + ClosingTagText(tagName)]
  {
    var inner := indentation + Spaces(TabSize);
    var open, close := OpeningTagText(tagName, attributes), indentation + ClosingTagText(tagName);
    var body := Join(IndentLines(inner, Split(content)));
    MultiLineText(content, tagName, attributes, indentation);
    assert NoLineFeed(open) && NoLineFeed(close);
    SplitBetween(open, body, close);
    IndentedContentLines(content, inner);
  }

  /** Multi-line content comes out as: the opening tag on a line of its own, then every content
      line, indented one step deeper than `indentation` exactly when it is not blank, then the
      closing tag on a line of its own at `indentation`. */
  lemma FormatMultiLine(content: string, tagName: string, attributes: string, indentation: string)
    requires !NoLineFeed(content)
    requires NoLineFeed(tagName) && NoLineFeed(attributes) && NoLineFeed(indentation)
    ensures var out, ls, inner := Split(FormatWrappedText(content, tagName, attributes, indentation)),
                                  Split(content), indentation + Spaces(TabSize);
      |out| == |ls| + 2
      && out[0] == (if attributes == "" then "<" + tagName + ">" else "<" + tagName + " " + attributes + ">")
      && (forall i :: 0 <= i < |ls| ==>
            out[i + 1] == if Trim(ls[i]) != "" then inner + ls[i] else ls[i])
      && out[|ls| + 1] == indentation + ("</" + tagName + ">")
  {
    var inner, ls := indentation + Spaces(TabSize), Split(content);
    var open := OpeningTagText(tagName, attributes);
    MultiLineSplit(content, tagName, attributes, indentation);
    Framed(Split(FormatWrappedText(content, tagName, attributes, indentation)),
           open, IndentLines(inner, ls), indentation + ClosingTagText(tagName));
  }

  lemma Framed(out: seq<string>, a: string, m: seq<string>, c: string)
    requires out == [a] + m + [c]
    ensures |out| == |m| + 2 && out[0] == a && out[|m| + 1] == c
    ensures forall i :: 0 <= i < |m| ==> out[i + 1] == m[i]
  {
  }

  /** Indenting with LF-free indentation keeps the pieces of a split LF-free. */
  lemma IndentedLinesHaveNoLineFeed(inner: string, ls: seq<string>)
    requires NoLineFeed(inner) && forall i :: 0 <= i < |ls| ==> NoLineFeed(ls[i])
    ensures forall i :: 0 <= i < |ls| ==> NoLineFeed(IndentLines(inner, ls)[i])
  {
  }

  /** Undo `IndentLine`: drop the inner indentation from a line that has it in front of
      something that is not blank. */
  function UnindentLine(inner: string, line: string): (r: string)
    ensures r == line || line == inner + r
  {
    if |inner| <= |line| && line[..|inner|] == inner && Trim(line[|inner|..]) != "" then line[|inner|..]
    else line
  }

  function UnindentLines(inner: string, ls: seq<string>): seq<string> {
    seq(|ls|, i requires 0 <= i < |ls| => UnindentLine(inner, ls[i]))
  }

  /** Recover the content from wrapped text: a text with no line break is the inline form,
      otherwise the opening line, the indented lines and the closing line. */
  function Unwrap(text: string, tagName: string, attributes: string, indentation: string): Option<string> {
    var open, close := OpeningTagText(tagName, attributes), ClosingTagText(tagName);
    if NoLineFeed(text) then Unframe(text, open, close)
    else
      match Unframe(text, open + "\n", "\n" + (indentation + close))
      case Some(body) => Some(Join(UnindentLines(indentation + Spaces(TabSize), Split(body))))
      case None => None
  }

  /** What lies between `head` and `tail`, when `text` starts with the one and ends with the
      other. */
  function Unframe(text: string, head: string, tail: string): Option<string> {
    if |head| + |tail| <= |text| && text[..|head|] == head && text[|text| - |tail|..] == tail
    then Some(text[|head|..|text| - |tail|])
    else None
  }

  lemma UnframeFramed(head: string, body: string, tail: string)
    ensures Unframe(head + body + tail, head, tail) == Some(body)
  {
    var text := head + body + tail;
    assert text[..|head|] == head;
    assert text[|text| - |tail|..] == tail;
    assert text[|head|..|text| - |tail|] == body;
  }

  lemma UnindentIndentLine(inner: string, line: string)
    ensures UnindentLine(inner, IndentLine(inner, line)) == line
  {
    if Trim(line) != "" {
      assert (inner + line)[..|inner|] == inner;
      assert (inner + line)[|inner|..] == line;
    } else if |inner| <= |line| && line[..|inner|] == inner {
      assert AllSpace(line[|inner|..]) by {
        assert forall i :: |inner| <= i < |line| ==> line[|inner|..][i - |inner|] == line[i];
      }
    }
  }

  /** Unindenting the indented lines gives the lines back. */
  lemma UnindentIndentLines(inner: string, ls: seq<string>)
    ensures UnindentLines(inner, IndentLines(inner, ls)) == ls
  {
    forall i | 0 <= i < |ls| ensures UnindentLines(inner, IndentLines(inner, ls))[i] == ls[i] {
      UnindentIndentLine(inner, ls[i]);
    }
  }

  /** The inline form is recovered. */
  lemma UnwrapSingleLine(content: string, tagName: string, attributes: string, indentation: string)
    requires NoLineFeed(content) && NoLineFeed(tagName) && NoLineFeed(attributes)
    ensures Unwrap(OpeningTagText(tagName, attributes) + content + ClosingTagText(tagName), tagName, attributes, indentation)
      == Some(content)
  {
    UnframeFramed(OpeningTagText(tagName, attributes), content, ClosingTagText(tagName));
  }

  /** The multi-line form is recovered, given the split of what lies between its first and last
      lines. */
  lemma UnwrapMultiLine(head: string, body: string, tail: string, tagName: string, attributes: string, indentation: string)
    requires head == OpeningTagText(tagName, attributes) + "\n"
    requires tail == "\n" + (indentation + ClosingTagText(tagName))
    ensures Unwrap(head + body + tail, tagName, attributes, indentation)
      == Some(Join(UnindentLines(indentation + Spaces(TabSize), Split(body))))
  {
    var text := head + body + tail;
    assert text[|head| - 1] == '\n';
    UnframeFramed(head, body, tail);
  }

  /** `Unwrap` recovers the content from what `FormatWrappedText` makes of it, for one-line and
      multi-line content alike. */
  lemma FormatRoundTrip(content: string, tagName: string, attributes: string, indentation: string)
    requires NoLineFeed(tagName) && NoLineFeed(attributes) && NoLineFeed(indentation)
    ensures Unwrap(FormatWrappedText(content, tagName, attributes, indentation), tagName, attributes, indentation)
      == Some(content)
  {
    var open, close := OpeningTagText(tagName, attributes), ClosingTagText(tagName);
    if NoLineFeed(content) {
      SingleLineText(content, tagName, attributes, indentation);
      UnwrapSingleLine(content, tagName, attributes, indentation);
    } else {
      var inner := indentation + Spaces(TabSize);
      var body := Join(IndentLines(inner, Split(content)));
      var head, tail := open + "\n", "\n" + (indentation + close);
      MultiLineText(content, tagName, attributes, indentation);
      assert FormatWrappedText(content, tagName, attributes, indentation) == head + body + tail;
      UnwrapMultiLine(head, body, tail, tagName, attributes, indentation);
      IndentedContentLines(content, inner);
      UnindentIndentLines(inner, Split(content));
      JoinSplit(content);
    }
  }
}
