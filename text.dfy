/** Character classes and string operations the extension relies on: JavaScript's `\s` and
    `trim()` whitespace, the ASCII letters and digits of tag names, ASCII case folding (the `i`
    flag of a non-Unicode regular expression), and `split('\n')` / `join('\n')`. */
module Text {

  /** JavaScript's WhiteSpace and LineTerminator code points: the set matched by `\s` and
      removed by `String.prototype.trim`. */
  predicate IsJsSpace(c: char) {
    var n := c as int;
    n == 0x09 || n == 0x0A || n == 0x0B || n == 0x0C || n == 0x0D || n == 0x20
    || n == 0xA0 || n == 0x1680 || (0x2000 <= n <= 0x200A) || n == 0x2028 || n == 0x2029
    || n == 0x202F || n == 0x205F || n == 0x3000 || n == 0xFEFF
  }

  /** `[a-zA-Z]` */
  predicate IsLetter(c: char) {
    ('a' <= c <= 'z') || ('A' <= c <= 'Z')
  }

  /** `[a-zA-Z0-9-]` */
  predicate IsNameChar(c: char) {
    IsLetter(c) || ('0' <= c <= '9') || c == '-'
  }

  /** A tag name as the extension's regular expressions capture it: `[a-zA-Z][a-zA-Z0-9-]*`. */
  predicate IsTagName(s: string) {
    |s| >= 1 && IsLetter(s[0]) && forall i :: 1 <= i < |s| ==> IsNameChar(s[i])
  }

  predicate AllSpace(s: string) {
    forall i :: 0 <= i < |s| ==> IsJsSpace(s[i])
  }

  /** ASCII lower-casing; every other character is its own case. */
  function Lower(c: char): char {
    if 'A' <= c <= 'Z' then (c as int + 32) as char else c
  }

  /** Under folding, a name character equals only itself and, for a letter, the same letter in
      the other case. */
  lemma LowerMatchesNameChar(c: char, x: char)
    requires IsNameChar(c)
    ensures Lower(x) == Lower(c) <==>
      x == c || (IsLetter(c) && IsLetter(x) && (x as int - c as int == 32 || c as int - x as int == 32))
  {
  }

  /** Equality under ASCII case folding. */
  predicate FoldEq(a: string, b: string) {
    |a| == |b| && forall i :: 0 <= i < |a| ==> Lower(a[i]) == Lower(b[i])
  }

  /** Length of the longest prefix of `s` made of whitespace: what `/^\s* /` matches. */
  function LeadingSpaceLength(s: string): (n: nat)
    ensures n <= |s|
    ensures AllSpace(s[..n])
    ensures n == |s| || !IsJsSpace(s[n])
  {
    if s != [] && IsJsSpace(s[0]) then
      var k := LeadingSpaceLength(s[1..]);
      assert s[..k + 1] == [s[0]] + s[1..][..k];
      k + 1
    else 0
  }

  /** Length of the longest suffix of `s` made of whitespace. */
  function TrailingSpaceLength(s: string): (n: nat)
    ensures n <= |s|
    ensures AllSpace(s[|s| - n..])
    ensures n == |s| || !IsJsSpace(s[|s| - n - 1])
  {
    if s != [] && IsJsSpace(s[|s| - 1]) then
      var k := TrailingSpaceLength(s[..|s| - 1]);
      assert s[|s| - (k + 1)..] == s[..|s| - 1][|s| - 1 - k..] + [s[|s| - 1]];
      k + 1
    else 0
  }

  /** `s.trim()`: `s` without its leading and trailing whitespace. The result is empty exactly
      when `s` is all whitespace, and otherwise starts and ends with a non-whitespace character. */
  function Trim(s: string): (r: string)
    ensures r == "" <==> AllSpace(s)
    ensures r != "" ==> !IsJsSpace(r[0]) && !IsJsSpace(r[|r| - 1])
  {
    var a := LeadingSpaceLength(s);
    var t := s[a..];
    var b := TrailingSpaceLength(t);
    if a == |s| then
      assert s[..a] == s;
      assert s[0..0] == "";
      ""
    else
      assert t[0] == s[a];
      var r := t[..|t| - b];
      assert r == s[a..a + |r|];
      assert r[0] == s[a];
      assert !AllSpace(s) by { assert !IsJsSpace(s[a]); }
      r
  }

  /** `s.split('\n')`: never empty; one element more than there are line feeds in `s`. */
  function Split(s: string): (r: seq<string>)
    ensures |r| >= 1
    decreases |s|
  {
    if s == [] then [""]
    else
      var rest := Split(s[1..]);
      if s[0] == '\n' then [""] + rest else [[s[0]] + rest[0]] + rest[1..]
  }

  /** `ls.join('\n')` */
  function Join(ls: seq<string>): string
    decreases |ls|
  {
    if ls == [] then ""
    else if |ls| == 1 then ls[0]
    else ls[0] + "\n" + Join(ls[1..])
  }

  predicate NoLineFeed(s: string) {
    '\n' !in s
  }

  /** No piece of a split contains the separator. */
  lemma {:induction false} SplitPiecesHaveNoLineFeed(s: string)
    ensures forall i :: 0 <= i < |Split(s)| ==> NoLineFeed(Split(s)[i])
    decreases |s|
  {
    if s != [] {
      SplitPiecesHaveNoLineFeed(s[1..]);
    }
  }

  /** The split has exactly one piece when and only when there is no line feed. */
  lemma {:induction false} SplitSingle(s: string)
    ensures |Split(s)| == 1 <==> NoLineFeed(s)
    ensures NoLineFeed(s) ==> Split(s) == [s]
    decreases |s|
  {
    if s != [] {
      SplitSingle(s[1..]);
      if s[0] != '\n' {
        assert [s[0]] + s[1..] == s;
        assert '\n' in s[1..] ==> '\n' in s;
        assert '\n' in s ==> '\n' in s[1..] by {
          if '\n' in s {
            var i :| 0 <= i < |s| && s[i] == '\n';
            assert i > 0 && s[1..][i - 1] == '\n';
          }
        }
      }
    }
  }

  /** Splitting at a line feed splits the two sides independently. */
  lemma {:induction false} SplitAppend(a: string, b: string)
    ensures Split(a + "\n" + b) == Split(a) + Split(b)
    decreases |a|
  {
    if a == [] {
      assert a + "\n" + b == "\n" + b;
      assert ("\n" + b)[1..] == b;
    } else {
      assert (a + "\n" + b)[1..] == a[1..] + "\n" + b;
      SplitAppend(a[1..], b);
    }
  }

  /** `join` undoes `split`. */
  lemma {:induction false} JoinSplit(s: string)
    ensures Join(Split(s)) == s
    decreases |s|
  {
    if s != [] {
      var rest := Split(s[1..]);
      JoinSplit(s[1..]);
      if s[0] == '\n' {
        assert Join([""] + rest) == "" + "\n" + Join(rest);
      } else if |rest| > 1 {
        var r := [[s[0]] + rest[0]] + rest[1..];
        assert r[1..] == rest[1..];
        assert Join(rest) == rest[0] + "\n" + Join(rest[1..]);
      }
    }
  }

  /** `split` undoes `join` of pieces that contain no line feed. */
  lemma {:induction false} SplitJoin(ls: seq<string>)
    requires |ls| >= 1
    requires forall i :: 0 <= i < |ls| ==> NoLineFeed(ls[i])
    ensures Split(Join(ls)) == ls
    decreases |ls|
  {
    SplitSingle(ls[0]);
    if |ls| > 1 {
      SplitJoin(ls[1..]);
      SplitAppend(ls[0], Join(ls[1..]));
      assert [ls[0]] + ls[1..] == ls;
    }
  }
}
