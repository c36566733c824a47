/** Character classes and plain string operations that the analyzer, the
    statistics panel and the editor share: the ASCII readings of JavaScript's
    `\s`, `\w`, `toLowerCase`, `trim`, `indexOf`, `includes` and `replace`
    with a string pattern. */
module Text {

  /** `\s` restricted to ASCII: space, tab, line feed, carriage return,
      vertical tab and form feed. */
  predicate IsWhitespace(c: char) {
    c == ' ' || c == '\t' || c == '\n' || c == '\r' || c == 11 as char || c == 12 as char
  }

  /** `\w`: an ASCII letter, digit or underscore. */
  predicate IsWordChar(c: char) {
    ('a' <= c <= 'z') || ('A' <= c <= 'Z') || ('0' <= c <= '9') || c == '_'
  }

  /** The sentence terminators of the class `[.!?]`. */
  predicate IsTerminator(c: char) {
    c == '.' || c == '!' || c == '?'
  }

  /** The vowels the syllable counter looks for, in both cases. */
  predicate IsVowel(c: char) {
    c in "aeiouAEIOU"
  }

  predicate IsDigit(c: char) {
    '0' <= c <= '9'
  }

  predicate AllWhitespace(s: string) {
    forall i :: 0 <= i < |s| ==> IsWhitespace(s[i])
  }

  /** ASCII lower-casing of one character. */
  function ToLowerChar(c: char): (r: char)
    ensures IsWhitespace(c) <==> IsWhitespace(r)
    ensures IsWordChar(c) <==> IsWordChar(r)
    ensures !('A' <= r <= 'Z')
    ensures 'a' <= c <= 'z' || !('A' <= c <= 'Z') ==> r == c
  {
    if 'A' <= c <= 'Z' then (c as int + 32) as char else c
  }

  /** `toLowerCase`, character by character. */
  function Lower(s: string): (r: string)
    ensures |r| == |s|
    ensures forall i :: 0 <= i < |s| ==> r[i] == ToLowerChar(s[i])
  {
    seq(|s|, i requires 0 <= i < |s| => ToLowerChar(s[i]))
  }

  lemma LowerAppend(a: string, b: string)
    ensures Lower(a + b) == Lower(a) + Lower(b)
  {
    assert forall i :: 0 <= i < |a + b| ==> Lower(a + b)[i] == (Lower(a) + Lower(b))[i];
  }

  /** A lower-cased text that reads `a`, a space, `b` is a part reading
      `a`, a space, and a part reading `b`. */
  lemma LowerSpaceSplit(x: string, a: string, b: string)
    requires Lower(x) == a + " " + b
    ensures |x| == |a| + 1 + |b|
    ensures Lower(x[..|a|]) == a && x[|a|] == ' ' && Lower(x[|a| + 1..]) == b
  {
    assert forall j :: 0 <= j < |a| ==> Lower(x[..|a|])[j] == Lower(x)[j];
    assert ToLowerChar(x[|a|]) == Lower(x)[|a|];
    var rest := x[|a| + 1..];
    assert forall j :: 0 <= j < |b| ==> Lower(rest)[j] == Lower(x)[|a| + 1 + j];
  }

  lemma LowerSlice(s: string, i: nat, j: nat)
    requires i <= j <= |s|
    ensures Lower(s[i..j]) == Lower(s)[i..j]
  {
  }

  /** The number of whitespace characters. */
  function WhitespaceCount(s: string): (n: nat)
    ensures n <= |s|
  {
    if s == [] then 0
    else (if IsWhitespace(s[0]) then 1 else 0) + WhitespaceCount(s[1..])
  }

  /** Counting whitespace distributes over concatenation. */
  lemma {:induction false} WhitespaceCountAppend(a: string, b: string)
    ensures WhitespaceCount(a + b) == WhitespaceCount(a) + WhitespaceCount(b)
  {
    if a == [] {
      assert a + b == b;
    } else {
      assert (a + b)[0] == a[0] && (a + b)[1..] == a[1..] + b;
      WhitespaceCountAppend(a[1..], b);
    }
  }

  /** A text that starts with a non-whitespace character is not all
      whitespace. */
  lemma SolidStartCount(s: string)
    requires |s| > 0 && !IsWhitespace(s[0])
    ensures WhitespaceCount(s) < |s|
  {
  }

  /** A text that ends with a non-whitespace character is not all
      whitespace. */
  lemma SolidEndCount(s: string)
    requires |s| > 0 && !IsWhitespace(s[|s| - 1])
    ensures WhitespaceCount(s) < |s|
  {
    var init, last := s[..|s| - 1], s[|s| - 1..];
    assert s == init + last;
    WhitespaceCountAppend(init, last);
  }

  /** A text of whitespace only is all counted. */
  lemma {:induction false} WhitespaceCountAll(s: string)
    requires AllWhitespace(s)
    ensures WhitespaceCount(s) == |s|
  {
    if s != [] {
      WhitespaceCountAll(s[1..]);
    }
  }

  /* ---------- occurrences ---------- */

  /** `pat` occurs in `s` starting at `k`. */
  predicate OccursAt(s: string, pat: string, k: nat) {
    k + |pat| <= |s| && s[k..k + |pat|] == pat
  }

  predicate Occurs(s: string, pat: string) {
    exists k: nat :: k <= |s| && OccursAt(s, pat, k)
  }

  /** An occurrence inside an occurrence is an occurrence. */
  lemma OccursTransitive(s: string, t: string, u: string, i: nat, j: nat)
    requires OccursAt(s, t, i) && OccursAt(t, u, j)
    ensures OccursAt(s, u, i + j)
  {
    assert forall m :: 0 <= m < |u| ==> u[m] == t[j + m] == s[i + j + m];
    assert s[i + j..i + j + |u|] == u;
  }

  /** `s.indexOf(pat, from)`: the first occurrence at or after `from`, or -1. */
  function IndexFrom(s: string, pat: string, from: nat): (r: int)
    ensures r == -1 || (from <= r && OccursAt(s, pat, r))
    ensures r == -1 ==> forall k: nat :: from <= k ==> !OccursAt(s, pat, k)
    ensures r >= 0 ==> forall k: nat :: from <= k < r ==> !OccursAt(s, pat, k)
    decreases |s| - from
  {
    if from + |pat| > |s| then -1
    else if s[from..from + |pat|] == pat then from
    else IndexFrom(s, pat, from + 1)
  }

  /** `s.indexOf(pat)`. */
  function IndexOf(s: string, pat: string): (r: int)
    ensures r >= 0 <==> Occurs(s, pat)
    ensures r >= 0 ==> OccursAt(s, pat, r) && forall k: nat :: k < r ==> !OccursAt(s, pat, k)
    ensures r < 0 ==> r == -1
  {
    var r := IndexFrom(s, pat, 0);
    if r >= 0 then assert OccursAt(s, pat, r as nat); r else r
  }

  /** `s.includes(pat)`. */
  predicate Contains(s: string, pat: string) {
    IndexOf(s, pat) >= 0
  }

  /** `s.replace(pat, rep)` with a string pattern (and no `$` in `rep`):
      the first occurrence of `pat`, if any, becomes `rep`. */
  function ReplaceFirst(s: string, pat: string, rep: string): (r: string)
    ensures !Occurs(s, pat) ==> r == s
    ensures Occurs(s, pat) ==>
      var k := IndexOf(s, pat);
      |r| == |s| - |pat| + |rep|
      && r[..k] == s[..k] && r[k..k + |rep|] == rep && r[k + |rep|..] == s[k + |pat|..]
  {
    var k := IndexOf(s, pat);
    if k < 0 then s else s[..k] + rep + s[k + |pat|..]
  }

  /** The pieces in order with `gaps[i]` between pieces `i` and `i + 1`. */
  function Join(pieces: seq<string>, gaps: seq<string>): string
    requires |pieces| > 0 && |gaps| == |pieces| - 1
    decreases |pieces|
  {
    if |pieces| == 1 then pieces[0] else pieces[0] + gaps[0] + Join(pieces[1..], gaps[1..])
  }

  /** Joining one more piece in front. */
  lemma JoinCons(p: string, g: string, pieces: seq<string>, gaps: seq<string>)
    requires |pieces| > 0 && |gaps| == |pieces| - 1
    ensures Join([p] + pieces, [g] + gaps) == p + g + Join(pieces, gaps)
  {
    assert ([p] + pieces)[1..] == pieces && ([g] + gaps)[1..] == gaps;
  }

  /* ---------- trimming ---------- */

  /** Number of leading whitespace characters. */
  function LeadingWhitespace(s: string): (n: nat)
    ensures n <= |s|
    ensures forall k :: 0 <= k < n ==> IsWhitespace(s[k])
    ensures n < |s| ==> !IsWhitespace(s[n])
  {
    if |s| == 0 || !IsWhitespace(s[0]) then 0 else 1 + LeadingWhitespace(s[1..])
  }

  /** Length of `s` once its trailing whitespace is dropped. */
  function TrailingTrimEnd(s: string): (n: nat)
    ensures n <= |s|
    ensures forall k :: n <= k < |s| ==> IsWhitespace(s[k])
    ensures n > 0 ==> !IsWhitespace(s[n - 1])
  {
    if |s| == 0 || !IsWhitespace(s[|s| - 1]) then |s| else TrailingTrimEnd(s[..|s| - 1])
  }

  /** `s.trim()`: the text between the leading and the trailing whitespace. */
  function Trim(s: string): (r: string)
    ensures |r| <= |s|
    ensures Occurs(s, r)
    ensures r == [] <==> AllWhitespace(s)
    ensures r != [] ==> !IsWhitespace(r[0]) && !IsWhitespace(r[|r| - 1])
    ensures var a := LeadingWhitespace(s);
      a + |r| <= |s| && r == s[a..a + |r|]
      && AllWhitespace(s[..a]) && AllWhitespace(s[a + |r|..])
  {
    var a := LeadingWhitespace(s);
    var b := a + TrailingTrimEnd(s[a..]);
    TrimBounds(s, a, b);
    assert OccursAt(s, s[a..b], a);
    s[a..b]
  }

  /** Trimming whitespace padding off a text that begins and ends with
      non-whitespace gives that text back: with the contract of `Trim`,
      this pins its result down. */
  lemma TrimPadded(pre: string, mid: string, post: string)
    requires AllWhitespace(pre) && AllWhitespace(post)
    requires mid != [] ==> !IsWhitespace(mid[0]) && !IsWhitespace(mid[|mid| - 1])
    ensures Trim(pre + mid + post) == mid
  {
    var s := pre + mid + post;
    var r := Trim(s);
    var a := LeadingWhitespace(s);
    if mid == [] {
      assert AllWhitespace(s) by {
        forall k | 0 <= k < |s| ensures IsWhitespace(s[k]) {
          if k < |pre| {
            assert s[k] == pre[k];
          } else {
            assert s[k] == post[k - |pre|];
          }
        }
      }
    } else {
      assert a == |pre| by {
        assert s[|pre|] == mid[0];
        assert forall k :: 0 <= k < |pre| ==> s[k] == pre[k];
      }
      assert a + |r| == |pre| + |mid| by {
        assert s[|pre| + |mid| - 1] == mid[|mid| - 1];
        assert forall k :: |pre| + |mid| <= k < |s| ==> s[k] == post[k - |pre| - |mid|];
      }
      assert s[|pre|..|pre| + |mid|] == mid;
    }
  }

  /** The facts `Trim` relies on about the bounds it cuts at. */
  lemma TrimBounds(s: string, a: nat, b: nat)
    requires a == LeadingWhitespace(s) && b == a + TrailingTrimEnd(s[a..])
    ensures forall k :: 0 <= k < |s| && !IsWhitespace(s[k]) ==> a <= k < b
    ensures a == b <==> AllWhitespace(s)
  {
    forall k | 0 <= k < |s| && !IsWhitespace(s[k])
      ensures a <= k < b
    {
    }
  }

  /* ---------- decimal numerals ---------- */

  function DigitChar(d: nat): (c: char)
    requires d < 10
    ensures IsDigit(c)
  {
    ('0' as int + d) as char
  }

  /** The decimal numeral of `n`, as a template literal prints it. */
  function NatToString(n: nat): (r: string)
    ensures |r| >= 1
    ensures forall i :: 0 <= i < |r| ==> IsDigit(r[i])
    ensures n < 10 ==> r == [DigitChar(n)]
  {
    if n < 10 then [DigitChar(n)] else NatToString(n / 10) + [DigitChar(n % 10)]
  }

  /** The value of a string of decimal digits (non-digits read as 0). */
  function ParseNat(s: string): nat {
    if |s| == 0 then 0
    else
      var c := s[|s| - 1];
      ParseNat(s[..|s| - 1]) * 10 + (if IsDigit(c) then c as int - '0' as int else 0)
  }

  lemma {:induction false} ParseNatToString(n: nat)
    ensures ParseNat(NatToString(n)) == n
  {
    if n >= 10 {
      var s := NatToString(n);
      assert s[..|s| - 1] == NatToString(n / 10);
      ParseNatToString(n / 10);
    }
  }
}
