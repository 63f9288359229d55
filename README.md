# html-wrapper: a verified model of the tag engine

The HTML wrapper extension for VS Code wraps the HTML element under the cursor, or the
selection when there is no element, in a new tag that the user picks. This project models the
editor-independent engine behind that command in `src/extension.ts`:

- `findOpeningTag` looks backward from the cursor for an opening tag.
- `findClosingTag` looks forward from that tag for its matching closing tag, counting depth.
- `formatWrappedText` builds the replacement text.
- `getIndentation` returns a line's leading whitespace.
- The command body at lines 90-125 ties them together.

The document is a sequence of line strings. `getText` over a range joins the covered pieces of
lines with `"\n"`. The three regular expressions are written as explicit scanners:

- the generic opening tag `<[a-zA-Z][a-zA-Z0-9-]*(?:\s+[^>]*)?>`;
- the named opening tag `<name(?:\s+[^>]*)?>`;
- the named closing tag `</name>`.

The named patterns ignore ASCII case. `matchAll` yields the list produced by `Lexer.Matches`.
`match` with the `g` flag yields the matched strings of that same list, and the model uses only
how many there are (`Lexer.Count`, through `Matcher.Opens` and `Matcher.Closes`). For each
pattern the project proves that a scanner accepts exactly the strings of a declarative lexeme
definition (`Lexer.IsLexeme`). It also proves that the match list is the leftmost,
non-overlapping sequence of such lexemes.

`findOpeningTag` and `findClosingTag` are imperative in the source, with `while` loops and
mutable best-match and depth variables. They are modelled as methods with loops, each proved
equal to a specification function (`Locator.Locate`, `Matcher.MatchClosing`). Lemmas then say
what those functions mean. `formatWrappedText` and `getIndentation` are pure functions, and so
is their model.

The tag name and attributes come from UI prompts, so they are parameters here. The command
returns the edit it would make instead of applying it.

Modules, one per file, in dependency order:

- `Wrappers`: the Option and Result types.
- `Text`: JS whitespace, ASCII case folding, `trim`, and `split`/`join` on `"\n"`.
- `Lexer`: the regex scanners and the match lists.
- `Document`: positions, ranges, `getText` and `getIndentation`.
- `Locator`: `findOpeningTag`.
- `Matcher`: `findClosingTag`.
- `Formatter`: `formatWrappedText` and its inverse.
- `Command`: the command body.

Where the code and its stated intent differ, the model follows the code. The comment at
src/extension.ts:198 says the search checks "the current line and a few lines above", which
suggests it takes the nearest tag above. Suppose the cursor's line has no usable tag. The loop
over the lines above never exits early, and it overwrites `bestMatch` on every line that has a
tag. So the result is the last tag on the *topmost* tagged line, not on the nearest one.
`Locator.LocateFallsBackToTopmost` states this.

Content with no line break is wrapped inline as `<t>content</t>`, with no line break added, as
the comments at src/extension.ts:168 and :180 describe.

## Model

| member | source | states |
|---|---|---|
| Lexer.MatchAt | src/extension.ts:193-261 | The scanner for the three patterns at :193, :260 and :261: a match at i ends after i and within the text. Its complete meaning, in both directions, is the `Lexer.MatchAtIff` row |
| Lexer.MatchAtIff | src/extension.ts:193-261 | For each of the three tag patterns, the scanner matches at index i ending at e exactly when s[i..e] is a lexeme of the pattern: `<`, a letter, name characters, then `>` directly or whitespace, non-`>` characters and `>`; for named patterns the name matches case-insensitively |
| Lexer.OpeningTagAtIff | src/extension.ts:193 | The generic opening-tag scanner accepts exactly the lexemes `<[a-zA-Z][a-zA-Z0-9-]*(?:\s+[^>]*)?>`, both directions |
| Lexer.NamedOpeningTagAtIff | src/extension.ts:261 | The case-insensitive `<name(?:\s+[^>]*)?>` scanner accepts exactly its lexemes, both directions |
| Lexer.NamedClosingTagAtIff | src/extension.ts:260 | The case-insensitive `</name>` scanner accepts exactly its lexemes, both directions |
| Lexer.TailEndIff | src/extension.ts:193 | The tail after the name ends at e exactly when it is `>` alone or whitespace, a run without `>`, then the first `>` |
| Lexer.MatchesFrom | src/extension.ts:201 | Global matching from a position yields spans inside the string, each starting at or after that position, each non-empty, in order and without overlap |
| Lexer.Matches | src/extension.ts:201-287 | The `matchAll` list of a line at :201 and :287. It has no ensures of its own: `Lexer.MatchesFrom`, `Lexer.MatchesLeftmost`, `Lexer.MatchesFromFound` and `Lexer.MatchesOrdered` describe it |
| Lexer.Count | src/extension.ts:272-274 | The number of strings `lineText.match(re)` returns with the `g` flag at :272 and :274 (none when it returns null), which is the length of the `Lexer.Matches` list. It has no ensures of its own |
| Lexer.MatchesLeftmost | src/extension.ts:201 | Every index where the pattern matches is covered by some span of the global match list: no match is skipped except inside an earlier one |
| Lexer.MatchesFromFound | src/extension.ts:201 | Every span of the global match list is a match of the scanner at its start index |
| Lexer.MatchesAreLexemes | src/extension.ts:201 | Every span of `matchAll` bounds a lexeme of the pattern |
| Lexer.MatchesOrdered | src/extension.ts:201 | The ends of the matches strictly increase in list order |
| Lexer.NoAngleNoMatches | src/extension.ts:201 | A text with no `<` from the start position on has no matches |
| Lexer.ExtractTagName | src/extension.ts:253 | The captured name, when present, is a tag name (a letter followed by `[a-zA-Z0-9-]`) |
| Lexer.ExtractTagNameIsLeftmost | src/extension.ts:253-257 | No name is found exactly when no `<` in the text is followed by a letter; otherwise the name starts at the leftmost such `<` and runs over the longest name-character run |
| Lexer.ExtractFromLexeme | src/extension.ts:253-261 | The name taken from any opening-tag lexeme exists, and that lexeme is also a named opening-tag lexeme for its own name |
| Lexer.ClosingLexemeIsFoldedText | src/extension.ts:260 | A text is a `</name>` lexeme exactly when it equals `</name>` up to ASCII case folding |
| Lexer.OpeningLineMatches | src/extension.ts:260-261 | The line `<n>` holds exactly one named opening match spanning the whole line, and no closing match |
| Lexer.ClosingLineMatches | src/extension.ts:260-261 | The line `</n>` holds exactly one closing match spanning the whole line, and no named opening match |
| Lexer.ExtractFromOpeningLine | src/extension.ts:253 | The name taken from `<n>` is n |
| Text.LowerMatchesNameChar | src/extension.ts:260-261 | Under the `i` flag's ASCII folding, a name character equals exactly itself and, when it is a letter, the same letter in the other case |
| Text.LeadingSpaceLength | src/extension.ts:157 | The length of the maximal prefix made only of JS whitespace |
| Text.TrailingSpaceLength | src/extension.ts:173 | The length of the maximal suffix made only of JS whitespace |
| Text.Trim | src/extension.ts:173 | `trim()` is empty exactly when the line is all whitespace; a non-empty result starts and ends with a non-whitespace character |
| Text.Split | src/extension.ts:166 | `split('\n')` yields at least one piece |
| Text.Join | src/extension.ts:177 | `join('\n')`. It has no ensures of its own: `Text.JoinSplit` and `Text.SplitJoin` show it is the inverse of `Text.Split` |
| Text.SplitPiecesHaveNoLineFeed | src/extension.ts:166 | No piece of `split('\n')` contains a line feed |
| Text.SplitSingle | src/extension.ts:166-169 | The content splits into one line exactly when it has no line feed, and that line is the content itself |
| Text.SplitAppend | src/extension.ts:166 | Splitting `a + "\n" + b` gives the pieces of a followed by the pieces of b |
| Text.JoinSplit | src/extension.ts:166-177 | Joining the pieces of `split('\n')` with `"\n"` gives back the text |
| Text.SplitJoin | src/extension.ts:166-177 | Splitting the join of line-feed-free lines gives back those lines |
| Document.RangeOf | src/extension.ts:120 | `new vscode.Range(a, b)` orders its ends: the start is not after the end, the ends are a and b in some order, and they keep their order when a is not after b |
| Document.TextIn | src/extension.ts:119-121 | `document.getText(range)` at :119-121 and :252: the covered pieces of the lines joined with a line feed. It has no ensures of its own: `Document.TextInPieces` states what it holds |
| Document.LinesBetweenPieces | src/extension.ts:119-121 | The whole lines that a multi-line range covers, each followed by a line feed, then a last piece with no line feed, split back into exactly those lines and that piece |
| Document.TextInPieces | src/extension.ts:119-121 | For a document of lines without line feeds, the text of a one-line range is the covered part of its line. The text of a longer range splits at its line feeds into the rest of the first line, every line in between, and the start of the last line up to the end character |
| Document.GetIndentation | src/extension.ts:155-159 | The result is a prefix of the line, all whitespace, and maximal: the next character, if any, is not whitespace |
| Document.GetIndentationUnique | src/extension.ts:155-159 | Any maximal all-whitespace prefix of the line is the indentation |
| Document.HitRangeIsLexeme | src/extension.ts:201-205 | The range built from a match's index and length is a single-line range of the document bounding a lexeme |
| Locator.FirstHolding | src/extension.ts:203-215 | The first match, from the given index on, whose span `[start, end]` holds the cursor character; none exactly when no such match exists |
| Locator.LastEndingBefore | src/extension.ts:216-226 | The last match among the first n that ends strictly before the cursor; none exactly when no match among them does |
| Locator.TopmostTagIsFirstTaggedLine | src/extension.ts:228-245 | Scanning lines downward to the cursor with no early exit, the recorded tag is the last tag on the lowest-numbered line that has one, or none when no line in range has one |
| Locator.ScanLine | src/extension.ts:201-235 | One pass over a line's matches: on the cursor line, the found tag is the first that holds the cursor, and otherwise the best tag is the rightmost that ends before it; on a line above, the best tag becomes the line's last tag, or stays as it was when the line has none |
| Locator.FindOpeningTag | src/extension.ts:189-246 | The backward line scan returns exactly `Locate`: the first tag holding the cursor; else the closest tag ending before it on its line; else the last tag of the topmost tagged line above |
| Locator.LocateIsOpeningTag | src/extension.ts:193-246 | Any tag found is a one-line range on or above the cursor's line, bounding an opening-tag lexeme |
| Locator.LocateInsideTag | src/extension.ts:203-215 | When a match on the cursor line holds the cursor, the result is the first such match in left-to-right order |
| Locator.LocateClosestBefore | src/extension.ts:216-240 | When no match holds the cursor, the match at the smallest distance among those ending before it is the result, and lines above are not consulted |
| Locator.LocateFallsBackToTopmost | src/extension.ts:228-245 | When the cursor line yields nothing, there is no result exactly when no line above has a tag; otherwise the result is the last tag of the lowest-numbered tagged line |
| Matcher.FirstSettling | src/extension.ts:268-299 | The line found has a closing tag and leaves the depth at exactly 0 |
| Matcher.FirstSettlingIsFirst | src/extension.ts:268-301 | The settling line found is the first one at or after the start of the search, and there is none exactly when no line settles |
| Matcher.LastClosingLine | src/extension.ts:286-295 | The line found lies in the range and holds a closing tag |
| Matcher.LastClosingLineIsLast | src/extension.ts:286-308 | The line found is the last one in range with a closing tag, and there is none exactly when no line in range has one |
| Matcher.ScanStep | src/extension.ts:276-294 | One line of the scan adds that line's openings (less one on the opening line) and subtracts its closings; a settling line stops the search there; the last closing span seen moves to this line when it has closings |
| Matcher.ScanForClosingTag | src/extension.ts:259-308 | The forward depth-counting loop returns the last closing span on the first line that settles the depth, or else the last closing span seen, or none |
| Matcher.FindClosingTag | src/extension.ts:248-309 | The method returns exactly `MatchClosing`: no result when no name is captured from the opening tag's text, otherwise the result of the depth scan for that name from the opening tag's line |
| Matcher.MatchClosingNone | src/extension.ts:252-308 | There is no closing tag exactly when no name is captured, or when no line from the opening line on has a closing tag for that name |
| Matcher.LastClosingOnIsClosingTag | src/extension.ts:287-294 | The last closing match of a line with closings is a one-line range on that line, bounding a `</name>` lexeme whose text equals `</name>` up to case |
| Matcher.MatchClosingIsClosingTag | src/extension.ts:286-299 | Any closing tag found is a one-line range on or below the opening line, and its text equals `</name>` up to ASCII case, for the captured name |
| Matcher.NestedDocumentProfile | src/extension.ts:272-274 | In a document of N opening lines `<n>` then N closing lines `</n>`, each opening line counts one opening and no closing, and each closing line one closing and no opening |
| Matcher.ProfileNet | src/extension.ts:277-283 | For that line profile, the net depth change after k lines is k up to N and 2N - k after |
| Matcher.ProfileSettlesLast | src/extension.ts:297-299 | For that line profile, the first line that settles the depth is the last line |
| Matcher.NestedMatchesOutermost | src/extension.ts:263-299 | For N same-named tags nested one per line, the closing tag matched to the outermost opening tag is the outermost closing tag on the last line |
| Formatter.FormatWrappedText | src/extension.ts:161-187 | The model of `formatWrappedText`. It has no ensures of its own: `Formatter.FormatSingleLine`, `Formatter.FormatMultiLine` and `Formatter.FormatRoundTrip` describe its result |
| Formatter.Spaces | src/extension.ts:163 | `' '.repeat(n)` is n spaces |
| Formatter.SingleLineText | src/extension.ts:178-182 | Content without a line feed is wrapped inline as the opening tag, the content and the closing tag |
| Formatter.FormatSingleLine | src/extension.ts:178-182 | One-line content becomes `<t>content</t>` when the attributes are empty, otherwise `<t attrs>content</t>` with exactly one space |
| Formatter.MultiLineSplit | src/extension.ts:162-186 | Multi-line output splits into the opening tag line, the indented content lines and the closing line |
| Formatter.FormatMultiLine | src/extension.ts:162-186 | Multi-line output has two more lines than the content: the opening tag; each content line, prefixed by the indentation plus two spaces exactly when its trim is non-empty; then the indentation and the closing tag |
| Formatter.UnindentLine | src/extension.ts:173 | Unindenting either leaves a line as it is or removes exactly the inner indentation |
| Formatter.UnindentIndentLines | src/extension.ts:167-174 | Unindenting the indented lines gives back the original lines |
| Formatter.FormatRoundTrip | src/extension.ts:161-187 | Removing the tag lines and the inner indentation from the formatted text gives back the content exactly, for one-line and multi-line content alike |
| Command.Wrap | src/extension.ts:90-125 | The command fails with "no element" exactly when the selection is empty and no opening tag is found, and with "no closing tag" exactly when an opening tag is found but no match. Otherwise it replaces the selection, or the normalised range from the opening tag's start to the closing tag's end, with the formatted text of that range at the range's first-line indentation, and that text unwraps to the replaced text |

## Left out

- The `HTML_TAGS` table and the QuickPick menu, including cancelling it (src/extension.ts:9-29, 55-72): static menu data and UI; the chosen tag is a parameter.
- A document that changes while the menu and the prompts are open. The source reads the selected text at src/extension.ts:40, before the awaits at src/extension.ts:56-88, and it searches the document (src/extension.ts:91) and reads it (src/extension.ts:119) only after them. `Command.Wrap` takes one `lines` for all of these, so it assumes the document stays the same while the UI is open.
- The attribute prompts run through `Promise.all`, and the attribute string they build (src/extension.ts:74-88): asynchronous UI; the attribute string is a parameter.
- `textEditor.edit`, its success flag, and the information and error messages (src/extension.ts:99-105, 108, 114, 128-141): editor I/O; `Command.Wrap` returns the edit or the error instead.
- The `try`/`catch` and `console.error` (src/extension.ts:142-146): nothing in the modelled engine throws once the preconditions hold.
- Command registration and `context.subscriptions` (src/extension.ts:31-40, 150): host plumbing.
- An empty selection with no opening tag fails before the tag menu is shown (src/extension.ts:43-53). The model reports it as `NoElementFound`, searching from `selection.start`, which equals the active position for an empty selection.
- `document.lineAt` throwing on a line outside the document becomes the precondition that the line exists. Positions past the end of a line are not clamped as VS Code would clamp them; ranges must lie inside the document.
- Documents with `\r\n` line ends: `getText` is modelled as joining lines with `"\n"`.
- Characters outside the Basic Multilingual Plane: a string is a sequence of code points, not of UTF-16 units, so offsets differ from VS Code's for astral characters.
- Regular expressions in general: only the three tag patterns are modelled, as hand-written scanners. Case-insensitivity is ASCII folding, which agrees with JavaScript for tag names drawn from `[a-zA-Z0-9-]`.
- Nothing of `findClosingTag` is left out, but it is split in two: the name extraction stays in `Matcher.FindClosingTag`, which then calls `Matcher.ScanForClosingTag` for the depth-counting loop.
