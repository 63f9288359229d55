/** The editor-independent part of the `html-wrapper.wrapper` command (src/extension.ts:90-125):
    find the element around the selection, take its text, and compute the replacement. The tag
    and attributes the user picks are parameters; the edit is returned instead of applied. */
module Command {
  import opened Wrappers
  import opened Text
  import opened Document
  import opened Locator
  import opened Matcher
  import opened Formatter

  /** The replacement the command hands to `editBuilder.replace`. */
  datatype Edit = Edit(range: Range, text: string)

  /** Why no edit is made: no opening tag and nothing selected (src/extension.ts:107-110, and the
      same condition at src/extension.ts:43-53), or no closing tag for the opening tag found
      (src/extension.ts:113-116). */
  datatype WrapError = NoElementFound | NoMatchingCloseTag

  /** A prefix of a line-break-free text is line-break-free. */
  lemma PrefixHasNoLineFeed(s: string, n: nat)
    requires n <= |s| && NoLineFeed(s)
    ensures NoLineFeed(s[..n])
  {
  }

  /** The wrap command on `selection` with the chosen `tagName` and `attributes`. The edit's text
      is the formatted text of its range, indented like the range's first line, and unwraps to
      exactly the text it replaces. */
  method Wrap(lines: seq<string>, selection: Range, tagName: string, attributes: string)
    returns (r: Result<Edit, WrapError>)
    requires ValidRange(lines, selection)
    ensures r == Err(NoElementFound) <==>
      selection.start == selection.end && Locate(lines, selection.start).None?
    ensures r == Err(NoMatchingCloseTag) <==>
      Locate(lines, selection.start).Some? && ValidRange(lines, Locate(lines, selection.start).value)
      && MatchClosing(lines, Locate(lines, selection.start).value).None?
    ensures r.Ok? ==>
      (ValidRange(lines, r.value.range)
       && r.value.text == FormatWrappedText(TextIn(lines, r.value.range), tagName, attributes,
                                            GetIndentation(lines, r.value.range.start.line)))
    ensures r.Ok? && Locate(lines, selection.start).None? ==> r.value.range == selection
    ensures r.Ok? && Locate(lines, selection.start).Some? ==>
      ValidRange(lines, Locate(lines, selection.start).value)
      && MatchClosing(lines, Locate(lines, selection.start).value).Some?
      && r.value.range == RangeOf(Locate(lines, selection.start).value.start,
                                  MatchClosing(lines, Locate(lines, selection.start).value).value.end)
    ensures r.Ok? && LineTexts(lines) && NoLineFeed(tagName) && NoLineFeed(attributes) ==>
      Unwrap(r.value.text, tagName, attributes, GetIndentation(lines, r.value.range.start.line))
        == Some(TextIn(lines, r.value.range))
  {
    var startPosition := selection.start;
    var openingTag := FindOpeningTag(lines, startPosition);
    LocateIsOpeningTag(lines, startPosition);
    var range: Range;
    var indentation: string;
    if openingTag.None? {
      if selection.start == selection.end {
        return Err(NoElementFound);
      }
      range := selection;
      indentation := GetIndentation(lines, selection.start.line);
    } else {
      var closingTag := FindClosingTag(lines, openingTag.value);
      MatchClosingIsClosingTag(lines, openingTag.value);
      if closingTag.None? {
        return Err(NoMatchingCloseTag);
      }
      range := RangeOf(openingTag.value.start, closingTag.value.end);
      // The closing tag is one line at or below the opening tag, so the range starts on the
      // opening tag's line even when the two ends are swapped.
      assert range.start.line == openingTag.value.start.line;
      indentation := GetIndentation(lines, openingTag.value.start.line);
    }
    var contentToWrap := TextIn(lines, range);
    var wrappedText := FormatWrappedText(contentToWrap, tagName, attributes, indentation);
    if LineTexts(lines) && NoLineFeed(tagName) && NoLineFeed(attributes) {
      PrefixHasNoLineFeed(lines[range.start.line], |indentation|);
      FormatRoundTrip(contentToWrap, tagName, attributes, indentation);
    }
    return Ok(Edit(range, wrappedText));
  }
}
