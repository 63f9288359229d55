/** The three regular expressions of the tag engine, written as scanners over one line of text
    (src/extension.ts:193, 253, 260-261), and the list of matches that `matchAll` (or `match`
    with the `g` flag) produces from them. */
module Lexer {
  import opened Wrappers
  import opened Text

  /** The lexemes the extension searches for. */
  datatype Pattern =
    | OpeningTag                       // /<[a-zA-Z][a-zA-Z0-9-]*(?:\s+[^>]*)?>/g
    | NamedOpeningTag(name: string)    // /<name(?:\s+[^>]*)?>/gi
    | NamedClosingTag(name: string)    // /<\/name>/gi

  /** One match within a line: the half-open character interval [start, end). */
  datatype Hit = Hit(start: nat, end: nat)

  /** End of the longest run of `[a-zA-Z0-9-]` starting at `j` (a greedy `*` that never
      needs to give characters back). */
  function NameRunEnd(s: string, j: nat): (k: nat)
    requires j <= |s|
    ensures j <= k <= |s|
    ensures forall i :: j <= i < k ==> IsNameChar(s[i])
    ensures k == |s| || !IsNameChar(s[k])
    decreases |s| - j
  {
    if j < |s| && IsNameChar(s[j]) then NameRunEnd(s, j + 1) else j
  }

  /** The first index at or after `j` holding `c`. */
  function IndexOfFrom(s: string, c: char, j: nat): (r: Option<nat>)
    requires j <= |s|
    ensures r.Some? ==> j <= r.value < |s| && s[r.value] == c
    ensures r.Some? ==> forall i :: j <= i < r.value ==> s[i] != c
    ensures r.None? ==> forall i :: j <= i < |s| ==> s[i] != c
    decreases |s| - j
  {
    if j == |s| then None
    else if s[j] == c then Some(j)
    else IndexOfFrom(s, c, j + 1)
  }

  /** End of a match of `(?:\s+[^>]*)?>` starting at `j`: either `>` at once, or whitespace
      and then everything up to and including the first `>`. */
  function TailEnd(s: string, j: nat): (r: Option<nat>)
    requires j <= |s|
    ensures r.Some? ==> j < r.value <= |s|
  {
    if j < |s| && s[j] == '>' then Some(j + 1)
    else if j < |s| && IsJsSpace(s[j]) then
      match IndexOfFrom(s, '>', j)
      case Some(k) => Some(k + 1)
      case None => None
    else None
  }

  /** End of the match of pattern `p` that starts exactly at index `i`, if there is one. */
  function MatchAt(p: Pattern, s: string, i: nat): (r: Option<nat>)
    requires i <= |s|
    ensures r.Some? ==> i < r.value <= |s|
  {
    match p
    case OpeningTag =>
      if i + 1 < |s| && s[i] == '<' && IsLetter(s[i + 1]) then TailEnd(s, NameRunEnd(s, i + 2))
      else None
    case NamedOpeningTag(n) =>
      if i + 1 + |n| <= |s| && s[i] == '<' && FoldEq(s[i + 1..i + 1 + |n|], n) then TailEnd(s, i + 1 + |n|)
      else None
    case NamedClosingTag(n) =>
      if i + 3 + |n| <= |s| && s[i] == '<' && s[i + 1] == '/' && FoldEq(s[i + 2..i + 2 + |n|], n)
         && s[i + 2 + |n|] == '>'
      then Some(i + 3 + |n|)
      else None
  }

  /** The text matched by `(?:\s+[^>]*)?>`, as a whole. */
  predicate IsTail(u: string) {
    |u| >= 1 && u[|u| - 1] == '>'
    && (|u| == 1 || (IsJsSpace(u[0]) && forall k :: 0 <= k < |u| - 1 ==> u[k] != '>'))
  }

  /** The text matched by pattern `p`, as a whole: the reference definition of each lexeme. */
  predicate IsLexeme(p: Pattern, t: string) {
    match p
    case OpeningTag =>
      |t| >= 2 && t[0] == '<' && exists k :: 2 <= k < |t| && IsTagName(t[1..k]) && IsTail(t[k..])
    case NamedOpeningTag(n) =>
      |t| >= |n| + 2 && t[0] == '<' && FoldEq(t[1..|n| + 1], n) && IsTail(t[|n| + 1..])
    case NamedClosingTag(n) =>
      |t| == |n| + 3 && t[0] == '<' && t[1] == '/' && FoldEq(t[2..|n| + 2], n) && t[|n| + 2] == '>'
  }

  lemma SliceOfSlice(s: string, i: nat, e: nat, a: nat, b: nat)
    requires i <= e <= |s| && a <= b <= e - i
    ensures s[i..e][a..b] == s[i + a..i + b]
  {
    assert forall m :: 0 <= m < b - a ==> s[i..e][a..b][m] == s[i + a + m];
  }

  lemma TailEndIff(s: string, j: nat, e: nat)
    requires j <= e <= |s|
    ensures TailEnd(s, j) == Some(e) <==> j < e && IsTail(s[j..e])
  {
    if j < e && IsTail(s[j..e]) {
      assert s[e - 1] == s[j..e][e - 1 - j];
      if e - j > 1 {
        assert s[j] == s[j..e][0];
        forall i | j <= i < e - 1 ensures s[i] != '>' {
          assert s[i] == s[j..e][i - j];
        }
      }
    }
    if TailEnd(s, j) == Some(e) && s[j] != '>' {
      var u := s[j..e];
      forall k | 0 <= k < |u| - 1 ensures u[k] != '>' {
        assert u[k] == s[j + k];
      }
    }
  }

  lemma OpeningTagAtSound(s: string, i: nat, e: nat)
    requires i <= e <= |s|
    requires MatchAt(OpeningTag, s, i) == Some(e)
    ensures i < e && IsLexeme(OpeningTag, s[i..e])
  {
    var t := s[i..e];
    var j := NameRunEnd(s, i + 2);
    TailEndIff(s, j, e);
    SliceOfSlice(s, i, e, 1, j - i);
    SliceOfSlice(s, i, e, j - i, e - i);
    var n := t[1..j - i];
    assert n[0] == s[i + 1];
    forall m | 1 <= m < |n| ensures IsNameChar(n[m]) {
      assert n[m] == s[i + 1 + m];
    }
    assert IsTagName(n);
  }

  lemma OpeningTagAtComplete(s: string, i: nat, e: nat)
    requires i < e <= |s|
    requires IsLexeme(OpeningTag, s[i..e])
    ensures MatchAt(OpeningTag, s, i) == Some(e)
  {
    var t := s[i..e];
    var k :| 2 <= k < |t| && IsTagName(t[1..k]) && IsTail(t[k..]);
    assert s[i] == '<' && IsTagName(s[i + 1..i + k]) && IsTail(s[i + k..e]) by {
      assert s[i] == t[0];
      SliceOfSlice(s, i, e, 1, k);
      SliceOfSlice(s, i, e, k, e - i);
    }
    OpeningTagFromParts(s, i, k, e);
  }

  /** `<`, a tag name and a tail, laid end to end, are what the opening-tag scanner accepts. */
  lemma OpeningTagFromParts(s: string, i: nat, k: nat, e: nat)
    requires 2 <= k && i + k < e <= |s|
    requires s[i] == '<' && IsTagName(s[i + 1..i + k]) && IsTail(s[i + k..e])
    ensures MatchAt(OpeningTag, s, i) == Some(e)
  {
    assert s[i + k] == s[i + k..e][0];
    TagNameRun(s, i + 1, i + k);
    TailEndIff(s, i + k, e);
  }

  /** A tag name that is followed by the start of a tail ends a scan of name characters. */
  lemma TagNameRun(s: string, j: nat, k: nat)
    requires j < k < |s|
    requires IsTagName(s[j..k]) && (s[k] == '>' || IsJsSpace(s[k]))
    ensures IsLetter(s[j]) && NameRunEnd(s, j + 1) == k
  {
    var n := s[j..k];
    assert s[j] == n[0];
    forall m | j + 1 <= m < k ensures IsNameChar(s[m]) {
      assert s[m] == n[m - j];
    }
    NameRunEndUnique(s, j + 1, k);
  }

  /** A run of name characters that is not followed by another one ends where `NameRunEnd`
      says. */
  lemma NameRunEndUnique(s: string, j: nat, k: nat)
    requires j <= k <= |s|
    requires forall m :: j <= m < k ==> IsNameChar(s[m])
    requires k == |s| || !IsNameChar(s[k])
    ensures NameRunEnd(s, j) == k
  {
  }

  lemma OpeningTagAtIff(s: string, i: nat, e: nat)
    requires i <= e <= |s|
    ensures MatchAt(OpeningTag, s, i) == Some(e) <==> i < e && IsLexeme(OpeningTag, s[i..e])
  {
    if MatchAt(OpeningTag, s, i) == Some(e) {
      OpeningTagAtSound(s, i, e);
    }
    if i < e && IsLexeme(OpeningTag, s[i..e]) {
      OpeningTagAtComplete(s, i, e);
    }
  }

  lemma NamedOpeningTagAtIff(n: string, s: string, i: nat, e: nat)
    requires i <= e <= |s|
    ensures MatchAt(NamedOpeningTag(n), s, i) == Some(e) <==> i < e && IsLexeme(NamedOpeningTag(n), s[i..e])
  {
    if i + 1 + |n| <= e {
      SliceOfSlice(s, i, e, 1, |n| + 1);
      SliceOfSlice(s, i, e, |n| + 1, e - i);
      TailEndIff(s, i + 1 + |n|, e);
    }
  }

  lemma NamedClosingTagAtIff(n: string, s: string, i: nat, e: nat)
    requires i <= e <= |s|
    ensures MatchAt(NamedClosingTag(n), s, i) == Some(e) <==> i < e && IsLexeme(NamedClosingTag(n), s[i..e])
  {
    if i + 3 + |n| <= e {
      SliceOfSlice(s, i, e, 2, |n| + 2);
    }
  }

  /** The scanner finds a match at `i` ending at `e` exactly when `s[i..e]` is a lexeme. */
  lemma MatchAtIff(p: Pattern, s: string, i: nat, e: nat)
    requires i <= e <= |s|
    ensures MatchAt(p, s, i) == Some(e) <==> i < e && IsLexeme(p, s[i..e])
  {
    match p
    case OpeningTag => OpeningTagAtIff(s, i, e);
    case NamedOpeningTag(n) => NamedOpeningTagAtIff(n, s, i, e);
    case NamedClosingTag(n) => NamedClosingTagAtIff(n, s, i, e);
  }

  /** The matches `matchAll` yields when the search resumes at `pos`: the next match starts at
      the first index from which the pattern matches, and the search after it resumes at its
      end. Each match is a lexeme, and matches come left to right without overlapping. */
  function MatchesFrom(p: Pattern, s: string, pos: nat): (r: seq<Hit>)
    requires pos <= |s|
    ensures forall k :: 0 <= k < |r| ==> pos <= r[k].start < r[k].end <= |s|
    ensures forall k :: 0 <= k < |r| - 1 ==> r[k].end <= r[k + 1].start
    decreases |s| - pos
  {
    if pos == |s| then []
    else
      match MatchAt(p, s, pos)
      case Some(e) => [Hit(pos, e)] + MatchesFrom(p, s, e)
      case None => MatchesFrom(p, s, pos + 1)
  }

  /** All matches of `p` on the line `s`, left to right. */
  function Matches(p: Pattern, s: string): seq<Hit> {
    MatchesFrom(p, s, 0)
  }

  /** The number of matches, as `s.match(re)` with the `g` flag counts them. */
  function Count(p: Pattern, s: string): nat {
    |Matches(p, s)|
  }

  predicate Covers(h: Hit, j: nat) {
    h.start <= j < h.end
  }

  /** No lexeme is skipped: every index at or after `pos` where the pattern matches is the start
      of a match in the list or lies inside one (the matches never overlap). */
  lemma {:induction false} MatchesLeftmost(p: Pattern, s: string, pos: nat, j: nat)
    requires pos <= j < |s|
    requires MatchAt(p, s, j).Some?
    ensures exists k :: 0 <= k < |MatchesFrom(p, s, pos)| && Covers(MatchesFrom(p, s, pos)[k], j)
    decreases |s| - pos
  {
    match MatchAt(p, s, pos)
    case Some(e) =>
      if j < e {
        assert Covers(MatchesFrom(p, s, pos)[0], j);
      } else {
        MatchesLeftmost(p, s, e, j);
        CoveredAfterHit(p, s, pos, e, j);
      }
    case None =>
      MatchesLeftmost(p, s, pos + 1, j);
      CoveredAfterMiss(p, s, pos, pos + 1, j);
  }

  /** A match list that starts with a hit ending at `e` covers what the list from `e` covers. */
  lemma CoveredAfterHit(p: Pattern, s: string, pos: nat, e: nat, j: nat)
    requires pos < |s| && MatchAt(p, s, pos) == Some(e)
    requires exists k :: 0 <= k < |MatchesFrom(p, s, e)| && Covers(MatchesFrom(p, s, e)[k], j)
    ensures exists k :: 0 <= k < |MatchesFrom(p, s, pos)| && Covers(MatchesFrom(p, s, pos)[k], j)
  {
    var k :| 0 <= k < |MatchesFrom(p, s, e)| && Covers(MatchesFrom(p, s, e)[k], j);
    assert MatchesFrom(p, s, pos)[k + 1] == MatchesFrom(p, s, e)[k];
  }

  /** Where the pattern does not match at `pos`, the list from `pos` is the list from the next
      index `q`. */
  lemma CoveredAfterMiss(p: Pattern, s: string, pos: nat, q: nat, j: nat)
    requires pos < |s| && q == pos + 1 && MatchAt(p, s, pos).None?
    requires exists k :: 0 <= k < |MatchesFrom(p, s, q)| && Covers(MatchesFrom(p, s, q)[k], j)
    ensures exists k :: 0 <= k < |MatchesFrom(p, s, pos)| && Covers(MatchesFrom(p, s, pos)[k], j)
  {
    var k :| 0 <= k < |MatchesFrom(p, s, q)| && Covers(MatchesFrom(p, s, q)[k], j);
    assert MatchesFrom(p, s, pos)[k] == MatchesFrom(p, s, q)[k];
  }

  /** Each match is one the scanner finds at its start. */
  lemma {:induction false} MatchesFromFound(p: Pattern, s: string, pos: nat, k: nat)
    requires pos <= |s| && k < |MatchesFrom(p, s, pos)|
    ensures MatchAt(p, s, MatchesFrom(p, s, pos)[k].start) == Some(MatchesFrom(p, s, pos)[k].end)
    decreases |s| - pos
  {
    var r := MatchesFrom(p, s, pos);
    match MatchAt(p, s, pos)
    case Some(e) =>
      assert r == [Hit(pos, e)] + MatchesFrom(p, s, e);
      if k > 0 {
        assert r[k] == MatchesFrom(p, s, e)[k - 1];
        MatchesFromFound(p, s, e, k - 1);
      }
    case None =>
      assert r == MatchesFrom(p, s, pos + 1);
      MatchesFromFound(p, s, pos + 1, k);
  }

  /** Every match is a lexeme: the bounded text is matched by the pattern as a whole. */
  lemma MatchesAreLexemes(p: Pattern, s: string, k: nat)
    requires k < |Matches(p, s)|
    ensures IsLexeme(p, s[Matches(p, s)[k].start..Matches(p, s)[k].end])
  {
    var h := Matches(p, s)[k];
    MatchesFromFound(p, s, 0, k);
    MatchAtIff(p, s, h.start, h.end);
  }

  lemma MatchesOrderedPair(p: Pattern, s: string, j: nat, k: nat)
    requires j < k < |Matches(p, s)|
    ensures Matches(p, s)[j].end <= Matches(p, s)[k].start
    decreases k - j
  {
    if j + 1 < k {
      MatchesOrderedPair(p, s, j + 1, k);
    }
  }

  /** Matches come left to right: the ends of successive matches strictly increase. */
  lemma MatchesOrdered(p: Pattern, s: string)
    ensures forall j, k :: 0 <= j < k < |Matches(p, s)| ==> Matches(p, s)[j].end < Matches(p, s)[k].end
  {
    forall j, k | 0 <= j < k < |Matches(p, s)| ensures Matches(p, s)[j].end < Matches(p, s)[k].end {
      MatchesOrderedPair(p, s, j, k);
    }
  }

  /** A line without `<` at or after `pos` yields no match. */
  lemma {:induction false} NoAngleNoMatches(p: Pattern, s: string, pos: nat)
    requires pos <= |s|
    requires forall i :: pos <= i < |s| ==> s[i] != '<'
    ensures MatchesFrom(p, s, pos) == []
    decreases |s| - pos
  {
    if pos < |s| {
      NoAngleNoMatches(p, s, pos + 1);
    }
  }

  predicate NameStartsAt(s: string, j: nat) {
    j + 1 < |s| && s[j] == '<' && IsLetter(s[j + 1])
  }

  function FindNameStart(s: string, j: nat): (r: Option<nat>)
    requires j <= |s|
    ensures r.Some? ==> j <= r.value && NameStartsAt(s, r.value)
    ensures r.Some? ==> forall i :: j <= i < r.value ==> !NameStartsAt(s, i)
    ensures r.None? ==> forall i :: j <= i < |s| ==> !NameStartsAt(s, i)
    decreases |s| - j
  {
    if j == |s| then None
    else if NameStartsAt(s, j) then Some(j)
    else FindNameStart(s, j + 1)
  }

  /** The captured group of `/<([a-zA-Z][a-zA-Z0-9-]*)/` (src/extension.ts:253): the name after
      the leftmost `<` that is followed by a letter, as long as the name characters go. */
  function ExtractTagName(s: string): (r: Option<string>)
    ensures r.Some? ==> IsTagName(r.value)
  {
    match FindNameStart(s, 0)
    case None => None
    case Some(j) =>
      var n := s[j + 1..NameRunEnd(s, j + 2)];
      assert forall i :: 1 <= i < |n| ==> n[i] == s[j + 1 + i];
      Some(n)
  }

  /** There is no name exactly when no `<` is followed by a letter; otherwise the name is the
      whole run of name characters after the leftmost such `<`. */
  lemma ExtractTagNameIsLeftmost(s: string)
    ensures ExtractTagName(s).None? <==> forall j :: 0 <= j < |s| ==> !NameStartsAt(s, j)
    ensures ExtractTagName(s).Some? ==>
      exists j :: (0 <= j && j + 1 + |ExtractTagName(s).value| <= |s| && NameStartsAt(s, j)
        && (forall i :: 0 <= i < j ==> !NameStartsAt(s, i))
        && s[j + 1..j + 1 + |ExtractTagName(s).value|] == ExtractTagName(s).value
        && (j + 1 + |ExtractTagName(s).value| == |s| || !IsNameChar(s[j + 1 + |ExtractTagName(s).value|])))
  {
    match FindNameStart(s, 0)
    case None =>
    case Some(j) =>
      var e := NameRunEnd(s, j + 2);
      assert ExtractTagName(s).value == s[j + 1..e];
  }

  /** A name can be taken from every opening-tag lexeme, and the lexeme is then also a lexeme of
      the name-specific opening pattern for that name. */
  lemma ExtractFromLexeme(t: string)
    requires IsLexeme(OpeningTag, t)
    ensures ExtractTagName(t).Some?
    ensures IsLexeme(NamedOpeningTag(ExtractTagName(t).value), t)
  {
    var k :| 2 <= k < |t| && IsTagName(t[1..k]) && IsTail(t[k..]);
    assert t[k] == t[k..][0];
    TagNameRun(t, 1, k);
    assert FindNameStart(t, 0) == Some(0);
    assert ExtractTagName(t) == Some(t[1..k]);
  }

  /** A closing lexeme is exactly `</name>` under ASCII case folding. */
  lemma ClosingLexemeIsFoldedText(n: string, t: string)
    ensures IsLexeme(NamedClosingTag(n), t) <==> FoldEq(t, "</" + n + ">")
  {
    var c := "</" + n + ">";
    if FoldEq(t, c) {
      assert Lower(t[0]) == Lower(c[0]) && Lower(t[1]) == Lower(c[1]) && Lower(t[|n| + 2]) == Lower(c[|n| + 2]);
      forall i | 0 <= i < |n| ensures Lower(t[2..|n| + 2][i]) == Lower(n[i]) {
        assert t[2..|n| + 2][i] == t[i + 2] && c[i + 2] == n[i];
      }
    }
    if IsLexeme(NamedClosingTag(n), t) {
      forall i | 0 <= i < |t| ensures Lower(t[i]) == Lower(c[i]) {
        if 2 <= i < |n| + 2 {
          assert t[i] == t[2..|n| + 2][i - 2] && c[i] == n[i - 2];
        }
      }
    }
  }

  /** On the line `<name>` the name-specific patterns find the one opening tag and no closing
      tag. */
  lemma OpeningLineMatches(n: string)
    requires IsTagName(n)
    ensures Matches(NamedOpeningTag(n), "<" + n + ">") == [Hit(0, |n| + 2)]
    ensures Matches(NamedClosingTag(n), "<" + n + ">") == []
  {
    var s := "<" + n + ">";
    assert s[1..|n| + 1] == n;
    assert s[|n| + 1] == '>';
    assert MatchAt(NamedOpeningTag(n), s, 0) == Some(|n| + 2);
    assert MatchesFrom(NamedOpeningTag(n), s, |n| + 2) == [];
    assert forall i :: 1 <= i < |s| ==> s[i] != '<' by {
      forall i | 1 <= i < |s| ensures s[i] != '<' {
        if i <= |n| {
          assert s[i] == n[i - 1];
        }
      }
    }
    NoAngleNoMatches(NamedClosingTag(n), s, 1);
    assert MatchAt(NamedClosingTag(n), s, 0) == None;
  }

  /** On the line `</name>` the name-specific patterns find the one closing tag and no opening
      tag. */
  lemma ClosingLineMatches(n: string)
    requires IsTagName(n)
    ensures Matches(NamedClosingTag(n), "</" + n + ">") == [Hit(0, |n| + 3)]
    ensures Matches(NamedOpeningTag(n), "</" + n + ">") == []
  {
    var s := "</" + n + ">";
    assert s[2..|n| + 2] == n;
    assert MatchAt(NamedClosingTag(n), s, 0) == Some(|n| + 3);
    assert MatchesFrom(NamedClosingTag(n), s, |n| + 3) == [];
    assert forall i :: 1 <= i < |s| ==> s[i] != '<' by {
      forall i | 1 <= i < |s| ensures s[i] != '<' {
        if 2 <= i < |n| + 2 {
          assert s[i] == n[i - 2];
        }
      }
    }
    NoAngleNoMatches(NamedOpeningTag(n), s, 1);
    assert Lower(s[1]) != Lower(n[0]);
    assert !FoldEq(s[1..|n| + 1], n) by {
      assert s[1..|n| + 1][0] == s[1];
    }
    assert MatchAt(NamedOpeningTag(n), s, 0) == None;
  }

  /** The name taken from the line `<name>` is `name`. */
  lemma ExtractFromOpeningLine(n: string)
    requires IsTagName(n)
    ensures ExtractTagName("<" + n + ">") == Some(n)
  {
    var s := "<" + n + ">";
    assert NameStartsAt(s, 0);
    assert FindNameStart(s, 0) == Some(0);
    forall m | 2 <= m < |n| + 1 ensures IsNameChar(s[m]) {
      assert s[m] == n[m - 1];
    }
    assert s[|n| + 1] == '>';
    assert NameRunEnd(s, 2) == |n| + 1;
    assert s[1..|n| + 1] == n;
  }
}
