/** `findOpeningTag` (src/extension.ts:189-246): from the cursor, search backwards line by line
    for an opening-tag lexeme. */
module Locator {
  import opened Wrappers
  import opened Lexer
  import opened Document

  /** The opening-tag matches of every line, left to right: `tags[l]` is what
      `lineText.matchAll(openingTagRegex)` yields on line `l`. */
  function LineTags(lines: seq<string>): seq<seq<Hit>> {
    seq(|lines|, l requires 0 <= l < |lines| => Matches(OpeningTag, lines[l]))
  }

  /** The range of the last (rightmost) tag of line `l`. */
  function LastTagOn(tags: seq<seq<Hit>>, l: nat): Range
    requires l < |tags| && |tags[l]| > 0
  {
    HitRange(l, tags[l][|tags[l]| - 1])
  }

  /** The cursor lies within the match, the position just after its `>` included. */
  predicate Holds(h: Hit, ch: nat) {
    h.start <= ch <= h.end
  }

  /** The match ends strictly before the cursor. */
  predicate EndsBefore(h: Hit, ch: nat) {
    h.end < ch
  }

  /** The index of the first match at or after `i` that holds the cursor. */
  function FirstHolding(ms: seq<Hit>, ch: nat, i: nat): (r: Option<nat>)
    requires i <= |ms|
    ensures r.Some? ==> i <= r.value < |ms| && Holds(ms[r.value], ch)
    ensures r.Some? ==> forall j :: i <= j < r.value ==> !Holds(ms[j], ch)
    ensures r.None? ==> forall j :: i <= j < |ms| ==> !Holds(ms[j], ch)
    decreases |ms| - i
  {
    if i == |ms| then None
    else if Holds(ms[i], ch) then Some(i)
    else FirstHolding(ms, ch, i + 1)
  }

  /** The index of the last match before index `n` that ends before the cursor. */
  function LastEndingBefore(ms: seq<Hit>, ch: nat, n: nat): (r: Option<nat>)
    requires n <= |ms|
    ensures r.Some? ==> r.value < n && EndsBefore(ms[r.value], ch)
    ensures r.Some? ==> forall j :: r.value < j < n ==> !EndsBefore(ms[j], ch)
    ensures r.None? ==> forall j :: 0 <= j < n ==> !EndsBefore(ms[j], ch)
  {
    if n == 0 then None
    else if EndsBefore(ms[n - 1], ch) then Some(n - 1)
    else LastEndingBefore(ms, ch, n - 1)
  }

  /** The range of match `k` of line `l`, when there is a `k`. */
  function RangeOfHit(l: nat, ms: seq<Hit>, k: Option<nat>): Option<Range>
    requires k.Some? ==> k.value < |ms|
  {
    match k
    case Some(i) => Some(HitRange(l, ms[i]))
    case None => None
  }

  /** The last tag on the lowest-numbered line in [lo, hi) that has any tag. */
  function TopmostTag(tags: seq<seq<Hit>>, lo: nat, hi: nat): Option<Range>
    requires lo <= hi <= |tags|
    decreases hi - lo
  {
    if lo == hi then None
    else if |tags[lo]| > 0 then Some(LastTagOn(tags, lo))
    else TopmostTag(tags, lo + 1, hi)
  }

  /** `TopmostTag` is empty exactly when no line in [lo, hi) has a tag, and otherwise is the last
      tag of the first line that has one. */
  lemma {:induction false} TopmostTagIsFirstTaggedLine(tags: seq<seq<Hit>>, lo: nat, hi: nat)
    requires lo <= hi <= |tags|
    ensures TopmostTag(tags, lo, hi).None? <==> forall l :: lo <= l < hi ==> |tags[l]| == 0
    ensures TopmostTag(tags, lo, hi).Some? ==>
      exists l :: lo <= l < hi && |tags[l]| > 0 && (forall m :: lo <= m < l ==> |tags[m]| == 0)
        && TopmostTag(tags, lo, hi) == Some(LastTagOn(tags, l))
    decreases hi - lo
  {
    if lo < hi && |tags[lo]| == 0 {
      TopmostTagIsFirstTaggedLine(tags, lo + 1, hi);
      if TopmostTag(tags, lo + 1, hi).Some? {
        var l :| lo + 1 <= l < hi && |tags[l]| > 0 && (forall m :: lo + 1 <= m < l ==> |tags[m]| == 0)
          && TopmostTag(tags, lo + 1, hi) == Some(LastTagOn(tags, l));
        assert forall m :: lo <= m < l ==> |tags[m]| == 0;
      }
    }
  }

  /** `bestMatchDistance`, which starts out as `Infinity`. */
  datatype Distance = Finite(n: nat) | Infinity

  predicate Shorter(d: nat, best: Distance) {
    best.Infinity? || d < best.n
  }

  /** Match ends strictly increase from left to right. */
  predicate Ordered(ms: seq<Hit>) {
    forall j, k :: 0 <= j < k < |ms| ==> ms[j].end < ms[k].end
  }

  /** Where `findOpeningTag` lands: on the cursor's line, the first tag holding the cursor;
      failing that, the rightmost tag ending before it; failing that, the last tag of the
      topmost line above that has one. */
  function Locate(lines: seq<string>, position: Position): Option<Range>
    requires position.line < |lines|
  {
    var ms, ch := LineTags(lines)[position.line], position.character;
    if FirstHolding(ms, ch, 0).Some? then RangeOfHit(position.line, ms, FirstHolding(ms, ch, 0))
    else if LastEndingBefore(ms, ch, |ms|).Some? then RangeOfHit(position.line, ms, LastEndingBefore(ms, ch, |ms|))
    else TopmostTag(LineTags(lines), 0, position.line)
  }

  /** One pass of the loop body of `findOpeningTag` over line `lineNumber`, whose matches are
      `matches` (src/extension.ts:201-235). On the cursor's line, `found` is the first tag
      holding the cursor (the early `return`); otherwise `best` is the rightmost tag ending
      before the cursor, if any: the `bestMatchDistance` comparison picks it because match ends
      increase. On a line above, `best` becomes the line's last tag, if it has one. */
  method ScanLine(matches: seq<Hit>, lineNumber: nat, position: Position,
                  bestMatch: Option<Range>, bestMatchDistance: Distance)
    returns (found: Option<Range>, best: Option<Range>, bestDistance: Distance)
    requires Ordered(matches)
    requires lineNumber <= position.line
    requires lineNumber == position.line ==> bestMatch.None? && bestMatchDistance.Infinity?
    ensures lineNumber == position.line ==>
      found == RangeOfHit(lineNumber, matches, FirstHolding(matches, position.character, 0))
    ensures lineNumber == position.line && found.None? ==>
      best == RangeOfHit(lineNumber, matches, LastEndingBefore(matches, position.character, |matches|))
    ensures lineNumber < position.line ==>
      found.None? && best == if |matches| == 0 then bestMatch else Some(HitRange(lineNumber, matches[|matches| - 1]))
  {
    var ch := position.character;
    best, bestDistance := bestMatch, bestMatchDistance;
    for i := 0 to |matches|
      invariant lineNumber == position.line ==> FirstHolding(matches, ch, 0) == FirstHolding(matches, ch, i)
      invariant lineNumber == position.line ==> best == RangeOfHit(lineNumber, matches, LastEndingBefore(matches, ch, i))
      invariant lineNumber == position.line ==>
        bestDistance == match LastEndingBefore(matches, ch, i)
                        case Some(k) => Finite(ch - matches[k].end)
                        case None => Infinity
      invariant lineNumber < position.line ==>
        best == if i == 0 then bestMatch else Some(HitRange(lineNumber, matches[i - 1]))
    {
      var startChar := matches[i].start;
      var endChar := matches[i].end;
      if lineNumber == position.line {
        if ch >= startChar && ch <= endChar {
          return Some(HitRange(lineNumber, matches[i])), best, bestDistance;
        } else if ch > endChar {
          var distance := ch - endChar;
          if Shorter(distance, bestDistance) {
            bestDistance := Finite(distance);
            best := Some(HitRange(lineNumber, matches[i]));
          }
        }
      } else if lineNumber < position.line {
        best := Some(HitRange(lineNumber, matches[i]));
      }
    }
    found := None;
  }

  /** What `Locate` lands on is a one-line range, on or above the cursor's line, bounding an
      opening-tag lexeme. */
  lemma LocateIsOpeningTag(lines: seq<string>, position: Position)
    requires position.line < |lines|
    ensures Locate(lines, position).Some? ==>
      IsLexemeRange(lines, OpeningTag, Locate(lines, position).value)
      && Locate(lines, position).value.start.line <= position.line
  {
    var tags := LineTags(lines);
    var ms, ch := tags[position.line], position.character;
    var l: nat, k: nat;
    if FirstHolding(ms, ch, 0).Some? {
      l, k := position.line, FirstHolding(ms, ch, 0).value;
      assert Locate(lines, position) == Some(HitRange(l, tags[l][k]));
    } else if LastEndingBefore(ms, ch, |ms|).Some? {
      l, k := position.line, LastEndingBefore(ms, ch, |ms|).value;
      assert Locate(lines, position) == Some(HitRange(l, tags[l][k]));
    } else {
      assert Locate(lines, position) == TopmostTag(tags, 0, position.line);
      TopmostTagIsFirstTaggedLine(tags, 0, position.line);
      if TopmostTag(tags, 0, position.line).None? {
        return;
      }
      l :| 0 <= l < position.line && |tags[l]| > 0
        && TopmostTag(tags, 0, position.line) == Some(LastTagOn(tags, l));
      k := |tags[l]| - 1;
      assert LastTagOn(tags, l) == HitRange(l, tags[l][k]);
      assert Locate(lines, position) == Some(HitRange(l, tags[l][k]));
    }
    assert tags[l] == Matches(OpeningTag, lines[l]);
    HitRangeIsLexeme(lines, OpeningTag, l, k);
  }

  /** `findOpeningTag` (src/extension.ts:189-246): the backward search lands where `Locate`
      says. */
  method FindOpeningTag(lines: seq<string>, position: Position) returns (r: Option<Range>)
    requires position.line < |lines|
    ensures r == Locate(lines, position)
  {
    ghost var tags := LineTags(lines);
    ghost var ms0 := tags[position.line];
    var lineNumber: int := position.line;
    var bestMatch: Option<Range> := None;
    var bestMatchDistance := Infinity;

    while lineNumber >= 0
      invariant -1 <= lineNumber <= position.line
      invariant lineNumber == position.line ==> bestMatch.None? && bestMatchDistance.Infinity?
      invariant lineNumber < position.line ==>
        FirstHolding(ms0, position.character, 0).None? && LastEndingBefore(ms0, position.character, |ms0|).None?
      invariant lineNumber < position.line ==> bestMatch == TopmostTag(tags, lineNumber + 1, position.line)
      decreases lineNumber + 1
    {
      var matches := Matches(OpeningTag, lines[lineNumber]);
      assert matches == tags[lineNumber];
      MatchesOrdered(OpeningTag, lines[lineNumber]);
      var found;
      found, bestMatch, bestMatchDistance := ScanLine(matches, lineNumber, position, bestMatch, bestMatchDistance);
      if found.Some? {
        return found;
      }
      if lineNumber == position.line && bestMatch.Some? {
        return bestMatch;
      }
      assert bestMatch == TopmostTag(tags, lineNumber, position.line);
      lineNumber := lineNumber - 1;
    }
    return bestMatch;
  }

  /** The cursor lies within (or just after) some tag of its line: the first such tag, left to
      right, is the result. */
  lemma LocateInsideTag(lines: seq<string>, position: Position, k: nat)
    requires position.line < |lines|
    requires var ms := Matches(OpeningTag, lines[position.line]);
      k < |ms| && Holds(ms[k], position.character)
      && forall j :: 0 <= j < k ==> !Holds(ms[j], position.character)
    ensures Locate(lines, position) == Some(HitRange(position.line, Matches(OpeningTag, lines[position.line])[k]))
  {
    var ms := LineTags(lines)[position.line];
    var f := FirstHolding(ms, position.character, 0);
    assert f.Some?;
    assert f.value == k;
  }

  /** No tag of its line holds the cursor, and tag `k` ends before it at the smallest distance
      among those that do: tag `k` is the result, and lines above are not consulted. */
  lemma LocateClosestBefore(lines: seq<string>, position: Position, k: nat)
    requires position.line < |lines|
    requires var ms, ch := Matches(OpeningTag, lines[position.line]), position.character;
      (forall j :: 0 <= j < |ms| ==> !Holds(ms[j], ch))
      && k < |ms| && EndsBefore(ms[k], ch)
      && forall j :: 0 <= j < |ms| && EndsBefore(ms[j], ch) ==> ch - ms[k].end <= ch - ms[j].end
    ensures Locate(lines, position) == Some(HitRange(position.line, Matches(OpeningTag, lines[position.line])[k]))
  {
    var ms, ch := LineTags(lines)[position.line], position.character;
    MatchesOrdered(OpeningTag, lines[position.line]);
    assert FirstHolding(ms, ch, 0).None?;
    var last := LastEndingBefore(ms, ch, |ms|);
    assert last.Some?;
    assert last.value == k;
  }

  /** No tag of its line holds the cursor or ends before it: the result is the last tag of the
      topmost line above that has a tag, and there is none exactly when no line above has one. */
  lemma LocateFallsBackToTopmost(lines: seq<string>, position: Position)
    requires position.line < |lines|
    requires var ms, ch := Matches(OpeningTag, lines[position.line]), position.character;
      forall j :: 0 <= j < |ms| ==> !Holds(ms[j], ch) && !EndsBefore(ms[j], ch)
    ensures Locate(lines, position).None? <==>
      forall l :: 0 <= l < position.line ==> |Matches(OpeningTag, lines[l])| == 0
    ensures Locate(lines, position).Some? ==>
      exists l :: 0 <= l < position.line && |Matches(OpeningTag, lines[l])| > 0
        && (forall m :: 0 <= m < l ==> |Matches(OpeningTag, lines[m])| == 0)
        && Locate(lines, position) == Some(LastTagOn(LineTags(lines), l))
  {
    var tags := LineTags(lines);
    var ms, ch := tags[position.line], position.character;
    assert FirstHolding(ms, ch, 0).None?;
    assert LastEndingBefore(ms, ch, |ms|).None?;
    assert Locate(lines, position) == TopmostTag(tags, 0, position.line);
    TopmostTagIsFirstTaggedLine(tags, 0, position.line);
    assert forall l :: 0 <= l < |lines| ==> tags[l] == Matches(OpeningTag, lines[l]);
  }
}
