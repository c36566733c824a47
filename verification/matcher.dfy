/** The fixed-shape expressions of the analyzer, matched without a general
    regular-expression engine. Every expression the writing assistant uses is
    a sequence of tokens: a literal word compared ASCII case-insensitively, a
    whitespace run `\s+`, or a word `\w+` / `\w+ing` / `\w*ed`; with the `\b`
    word boundaries at both ends when the expression has them. `ScanFrom`
    then reproduces `matchAll`: the leftmost match, then the next one from
    where it ended. */
module Matcher {
  import opened Wrappers
  import opened Text
  import opened Split

  datatype Token =
    | Lit(word: string)                 // a lower-case literal such as `order`
    | Gap                               // `\s+`
    | Word(suffix: string, minStem: nat) // a `\w` run: at least `minStem` characters, then `suffix`

  /** `bounded` puts `\b` before the first and after the last token. */
  datatype Pattern = Pattern(tokens: seq<Token>, bounded: bool)

  /** A match, as the half-open offsets `[start, end)`. */
  datatype Span = Span(start: nat, end: nat)

  predicate IsWordAt(s: string, k: int) {
    0 <= k < |s| && IsWordChar(s[k])
  }

  /** `\b` at offset `k`. */
  predicate IsBoundary(s: string, k: nat) {
    IsWordAt(s, k - 1) != IsWordAt(s, k)
  }

  /** End of the maximal run of `\w` characters from `k`. */
  function WordRunEnd(s: string, k: nat): (e: nat)
    requires k <= |s|
    ensures k <= e <= |s|
    ensures forall j :: k <= j < e ==> IsWordChar(s[j])
    ensures e < |s| ==> !IsWordChar(s[e])
    decreases |s| - k
  {
    if k < |s| && IsWordChar(s[k]) then WordRunEnd(s, k + 1) else k
  }

  /** The fewest characters a token sequence can match. */
  function MinLength(tokens: seq<Token>): nat {
    if tokens == [] then 0
    else
      var first := match tokens[0]
        case Lit(w) => |w|
        case Gap => 1
        case Word(suffix, stem) => |suffix| + stem;
      first + MinLength(tokens[1..])
  }

  /** Where the tokens, matched from `k`, end. Whitespace and word runs are
      taken whole: in every expression here the next token starts with a
      character outside the run, or a `\b` follows, so the backtracking
      engine has no shorter choice that succeeds. */
  function MatchTokens(s: string, k: nat, tokens: seq<Token>): (r: Option<nat>)
    requires k <= |s|
    ensures r.Some? ==> k + MinLength(tokens) <= r.value <= |s|
    decreases |tokens|
  {
    if tokens == [] then Some(k)
    else
      match tokens[0]
      case Lit(w) =>
        if k + |w| <= |s| && Lower(s[k..k + |w|]) == w then MatchTokens(s, k + |w|, tokens[1..]) else None
      case Gap =>
        var e := RunEnd(s, k, Spaces);
        if e > k then MatchTokens(s, e, tokens[1..]) else None
      case Word(suffix, stem) =>
        var e := WordRunEnd(s, k);
        if e - k >= |suffix| + stem && Lower(s[e - |suffix|..e]) == suffix
        then MatchTokens(s, e, tokens[1..])
        else None
  }

  /** Where a match of `pat` that starts at `k` ends, if one does. */
  function MatchAt(s: string, k: nat, pat: Pattern): (r: Option<nat>)
    requires k <= |s|
    ensures r.Some? ==> k + MinLength(pat.tokens) <= r.value <= |s|
    ensures r.Some? && pat.bounded ==> IsBoundary(s, k) && IsBoundary(s, r.value)
  {
    if pat.bounded && !IsBoundary(s, k) then None
    else
      match MatchTokens(s, k, pat.tokens)
      case None => None
      case Some(e) => if pat.bounded && !IsBoundary(s, e) then None else Some(e)
  }

  /** An expression that begins with a literal whose first character is
      not whitespace matches nowhere in a text of whitespace only. */
  lemma NoMatchInWhitespace(s: string, k: nat, pat: Pattern)
    requires k <= |s| && AllWhitespace(s)
    requires |pat.tokens| > 0 && pat.tokens[0].Lit? && |pat.tokens[0].word| > 0
    requires !IsWhitespace(pat.tokens[0].word[0])
    ensures MatchAt(s, k, pat).None?
  {
    var w := pat.tokens[0].word;
    if k + |w| <= |s| {
      assert Lower(s[k..k + |w|])[0] == ToLowerChar(s[k]);
    }
    assert MatchTokens(s, k, pat.tokens).None?;
  }

  /** A match of an expression is a match of its tokens. */
  lemma MatchAtTokens(s: string, k: nat, pat: Pattern, e: nat)
    requires k <= |s| && MatchAt(s, k, pat) == Some(e)
    ensures MatchTokens(s, k, pat.tokens) == Some(e)
  {
  }

  /** The leftmost match starting at or after `from`. */
  function FirstMatch(s: string, pat: Pattern, from: nat): (r: Option<Span>)
    requires from <= |s|
    ensures r.Some? ==> from <= r.value.start <= |s| && MatchAt(s, r.value.start, pat) == Some(r.value.end)
    ensures r.Some? ==> forall j :: from <= j < r.value.start ==> MatchAt(s, j, pat).None?
    ensures r.None? ==> forall j :: from <= j <= |s| ==> MatchAt(s, j, pat).None?
    decreases |s| - from
  {
    match MatchAt(s, from, pat)
    case Some(e) => Some(Span(from, e))
    case None => if from == |s| then None else FirstMatch(s, pat, from + 1)
  }

  /** The match that starts at `j`, or overlaps it, in a scan. */
  predicate Covers(m: Span, j: nat) {
    m.start == j || m.start < j < m.end
  }

  /** `s.matchAll(pat)` from `lastIndex == from`: each match is the leftmost
      one at or after the end of the previous (one further on after an empty
      match). The result lists real matches, in order and without overlap,
      and misses no match that starts outside the ones it reports. */
  function ScanFrom(s: string, pat: Pattern, from: nat): (r: seq<Span>)
    requires from <= |s|
    ensures ScanResult(s, pat, from, r)
    decreases |s| + 1 - from
  {
    match FirstMatch(s, pat, from)
    case None => []
    case Some(m) =>
      var next := if m.end > m.start then m.end else m.start + 1;
      if next > |s| then
        ScanStep(s, pat, from, m, next, []);
        [m]
      else
        var rest := ScanFrom(s, pat, next);
        ScanStep(s, pat, from, m, next, rest);
        [m] + rest
  }

  /** What `ScanFrom` promises: real matches from `from` on, in order and
      without overlap, and every match start covered. */
  predicate ScanResult(s: string, pat: Pattern, from: nat, r: seq<Span>)
    requires from <= |s|
  {
    ScanSound(s, pat, from, r) && ScanDisjoint(r) && ScanComplete(s, pat, from, r)
  }

  /** Every listed span is a match starting at or after `from`. */
  predicate ScanSound(s: string, pat: Pattern, from: nat, r: seq<Span>) {
    forall k :: 0 <= k < |r| ==>
      from <= r[k].start <= |s| && MatchAt(s, r[k].start, pat) == Some(r[k].end)
  }

  /** The spans come in order and do not overlap. */
  predicate ScanDisjoint(r: seq<Span>) {
    forall a, b :: 0 <= a < b < |r| ==> r[a].start < r[b].start && r[a].end <= r[b].start
  }

  /** Every match starting at or after `from` is covered by a listed span. */
  predicate ScanComplete(s: string, pat: Pattern, from: nat, r: seq<Span>)
    requires from <= |s|
  {
    forall j :: from <= j <= |s| && MatchAt(s, j, pat).Some? ==>
      exists k :: 0 <= k < |r| && Covers(r[k], j)
  }

  /** One step of the scan: the leftmost match, then the scan from where it
      ended. */
  lemma ScanStep(s: string, pat: Pattern, from: nat, m: Span, next: nat, rest: seq<Span>)
    requires from <= |s|
    requires FirstMatch(s, pat, from) == Some(m)
    requires next == if m.end > m.start then m.end else m.start + 1
    requires next <= |s| ==> ScanResult(s, pat, next, rest)
    requires next > |s| ==> rest == []
    ensures ScanResult(s, pat, from, [m] + rest)
  {
    StepSound(s, pat, from, m, next, rest);
    StepDisjoint(m, next, rest);
    StepComplete(s, pat, from, m, next, rest);
  }

  lemma StepSound(s: string, pat: Pattern, from: nat, m: Span, next: nat, rest: seq<Span>)
    requires from <= m.start <= |s| && MatchAt(s, m.start, pat) == Some(m.end)
    requires m.start < next
    requires ScanSound(s, pat, next, rest)
    ensures ScanSound(s, pat, from, [m] + rest)
  {
    var r := [m] + rest;
    forall k | 0 <= k < |r|
      ensures from <= r[k].start <= |s| && MatchAt(s, r[k].start, pat) == Some(r[k].end)
    {
      if k > 0 { assert r[k] == rest[k - 1]; }
    }
  }

  lemma StepDisjoint(m: Span, next: nat, rest: seq<Span>)
    requires m.start < next && m.end <= next
    requires ScanDisjoint(rest)
    requires forall k :: 0 <= k < |rest| ==> next <= rest[k].start
    ensures ScanDisjoint([m] + rest)
  {
    var r := [m] + rest;
    forall a, b | 0 <= a < b < |r|
      ensures r[a].start < r[b].start && r[a].end <= r[b].start
    {
      assert r[b] == rest[b - 1];
      if a > 0 { assert r[a] == rest[a - 1]; }
    }
  }

  lemma StepComplete(s: string, pat: Pattern, from: nat, m: Span, next: nat, rest: seq<Span>)
    requires from <= m.start <= |s|
    requires forall j :: from <= j < m.start ==> MatchAt(s, j, pat).None?
    requires next == if m.end > m.start then m.end else m.start + 1
    requires next <= |s| ==> ScanComplete(s, pat, next, rest)
    ensures ScanComplete(s, pat, from, [m] + rest)
  {
    var r := [m] + rest;
    forall j | from <= j <= |s| && MatchAt(s, j, pat).Some?
      ensures exists k :: 0 <= k < |r| && Covers(r[k], j)
    {
      if j < next {
        assert Covers(r[0], j);
      } else {
        var k :| 0 <= k < |rest| && Covers(rest[k], j);
        assert r[k + 1] == rest[k];
      }
    }
  }

  function ScanAll(s: string, pat: Pattern): (r: seq<Span>)
    ensures ScanResult(s, pat, 0, r)
  {
    ScanFrom(s, pat, 0)
  }

  /** `s.replace(pat, rep)` with a non-global expression: the leftmost match,
      if any, becomes `rep`. */
  function ReplaceFirstMatch(s: string, pat: Pattern, rep: string): (r: string)
    ensures (forall j :: 0 <= j <= |s| ==> MatchAt(s, j, pat).None?) ==> r == s
  {
    match FirstMatch(s, pat, 0)
    case None => s
    case Some(m) => s[..m.start] + rep + s[m.end..]
  }

  /* ---------- reading a match back ---------- */

  /** A match that begins with a literal begins with that word. */
  lemma LitMatched(s: string, k: nat, tokens: seq<Token>, e: nat)
    requires k <= |s| && |tokens| > 0 && tokens[0].Lit?
    requires MatchTokens(s, k, tokens) == Some(e)
    ensures k + |tokens[0].word| <= |s| && Lower(s[k..k + |tokens[0].word|]) == tokens[0].word
    ensures MatchTokens(s, k + |tokens[0].word|, tokens[1..]) == Some(e)
  {
  }

  /** A match that begins with `\s+` begins with a whole whitespace run,
      ending at `g`. */
  lemma GapMatched(s: string, k: nat, tokens: seq<Token>, e: nat) returns (g: nat)
    requires k <= |s| && |tokens| > 0 && tokens[0].Gap?
    requires MatchTokens(s, k, tokens) == Some(e)
    ensures k < g <= |s| && g == RunEnd(s, k, Spaces)
    ensures forall j :: k <= j < g ==> IsWhitespace(s[j])
    ensures MatchTokens(s, g, tokens[1..]) == Some(e)
  {
    g := RunEnd(s, k, Spaces);
  }

  /** A match that begins with a word token begins with a whole `\w` run,
      ending at `g`. */
  lemma WordMatched(s: string, k: nat, tokens: seq<Token>, e: nat) returns (g: nat)
    requires k <= |s| && |tokens| > 0 && tokens[0].Word?
    requires MatchTokens(s, k, tokens) == Some(e)
    ensures g == WordRunEnd(s, k) && k + |tokens[0].suffix| + tokens[0].minStem <= g <= |s|
    ensures forall j :: k <= j < g ==> IsWordChar(s[j])
    ensures Lower(s[g - |tokens[0].suffix|..g]) == tokens[0].suffix
    ensures MatchTokens(s, g, tokens[1..]) == Some(e)
  {
    g := WordRunEnd(s, k);
  }
}
