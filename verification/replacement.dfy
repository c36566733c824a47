/** `generateReplacement`: the suggested rewrite for a matched span. The
    span is lower-cased and searched for trigger phrases in a fixed order:
    `very ` (answered from the strong-adjective table, or by dropping
    `very\s+`), then five phrases with a fixed substitute. */
module Replacement {
  import opened Wrappers
  import opened Text
  import opened Matcher
  import opened Split

  /** Literal words separated by `\s+`. */
  function Phrase(words: seq<string>): (r: seq<Token>)
    ensures |words| > 0 ==> |r| == 2 * |words| - 1
  {
    if |words| == 0 then []
    else if |words| == 1 then [Lit(words[0])]
    else [Lit(words[0]), Gap] + Phrase(words[1..])
  }

  /** The same words written with single spaces. */
  function PhraseText(words: seq<string>): string {
    if |words| == 0 then []
    else if |words| == 1 then words[0]
    else words[0] + " " + PhraseText(words[1..])
  }

  predicate IsLowerLetter(c: char) {
    'a' <= c <= 'z'
  }

  predicate LowerWords(words: seq<string>) {
    forall i :: 0 <= i < |words| ==> |words[i]| > 0 && forall j :: 0 <= j < |words[i]| ==> IsLowerLetter(words[i][j])
  }

  /** Matching a literal word that is there moves past it. */
  lemma LitStep(s: string, k: nat, w: string, tokens: seq<Token>)
    requires |tokens| > 0 && tokens[0] == Lit(w)
    requires k + |w| <= |s| && Lower(s[k..k + |w|]) == w
    ensures MatchTokens(s, k, tokens) == MatchTokens(s, k + |w|, tokens[1..])
  {
  }

  /** A single space before a non-space is a whole `\s+` run. */
  lemma GapStep(s: string, g: nat, tokens: seq<Token>)
    requires |tokens| > 0 && tokens[0] == Gap
    requires g + 1 < |s| && s[g] == ' ' && !IsWhitespace(s[g + 1])
    ensures MatchTokens(s, g, tokens) == MatchTokens(s, g + 1, tokens[1..])
  {
    assert RunEnd(s, g + 1, Spaces) == g + 1;
  }

  /** Where a single-spaced phrase of two or more words sits in `s`, the
      first word is followed by one space and then the rest of the phrase. */
  lemma PhraseTextParts(s: string, k: nat, words: seq<string>)
    requires |words| > 1 && |words[1]| > 0 && !IsWhitespace(words[1][0])
    requires k + |PhraseText(words)| <= |s|
    requires Lower(s[k..k + |PhraseText(words)|]) == PhraseText(words)
    ensures var g := k + |words[0]|; var tail := PhraseText(words[1..]);
      |PhraseText(words)| == |words[0]| + 1 + |tail|
      && Lower(s[k..g]) == words[0] && s[g] == ' ' && !IsWhitespace(s[g + 1])
      && Lower(s[g + 1..g + 1 + |tail|]) == tail
  {
    PhraseTextHead(words);
    SpacedParts(s, k, words[0], PhraseText(words[1..]));
  }

  /** Where `s` holds, from `k` and in any letter case, `w`, a space and a
      `tail` that starts with a non-space, it holds each part at its offset. */
  lemma SpacedParts(s: string, k: nat, w: string, tail: string)
    requires |tail| > 0 && !IsWhitespace(tail[0])
    requires k + |w| + 1 + |tail| <= |s|
    requires Lower(s[k..k + |w| + 1 + |tail|]) == w + " " + tail
    ensures var g := k + |w|;
      Lower(s[k..g]) == w && s[g] == ' ' && !IsWhitespace(s[g + 1])
      && Lower(s[g + 1..g + 1 + |tail|]) == tail
  {
    var g := k + |w|;
    var x := s[k..k + |w| + 1 + |tail|];
    LowerSpaceSplit(x, w, tail);
    SliceParts(s, k, |w|, |tail|);
    assert ToLowerChar(s[g + 1]) == tail[0];
  }

  /** The words of a phrase text, first word, one space, the rest. */
  lemma PhraseTextHead(words: seq<string>)
    requires |words| > 1 && |words[1]| > 0
    ensures PhraseText(words) == words[0] + " " + PhraseText(words[1..])
    ensures |PhraseText(words[1..])| > 0 && PhraseText(words[1..])[0] == words[1][0]
  {
    if |words| > 2 {
      assert PhraseText(words[1..]) == words[1] + " " + PhraseText(words[2..]);
    }
  }

  /** Where `x` is the slice of `s` from `k` of length `m + 1 + n`, its parts
      are the slices at the same offsets. */
  lemma SliceParts(s: string, k: nat, m: nat, n: nat)
    requires k + m + 1 + n <= |s|
    ensures var x := s[k..k + m + 1 + n];
      x[..m] == s[k..k + m] && x[m] == s[k + m] && x[m + 1..] == s[k + m + 1..k + m + 1 + n]
  {
  }

  /** A single-spaced occurrence of the phrase, in any letter case, is
      matched whole by its token sequence. */
  lemma {:induction false} PhraseMatchesItsText(s: string, k: nat, words: seq<string>)
    requires |words| > 0 && LowerWords(words)
    requires k + |PhraseText(words)| <= |s|
    requires Lower(s[k..k + |PhraseText(words)|]) == PhraseText(words)
    ensures MatchTokens(s, k, Phrase(words)) == Some(k + |PhraseText(words)|)
    decreases |words|
  {
    if |words| == 1 {
      LitStep(s, k, words[0], Phrase(words));
    } else {
      LowerWordsTail(words);
      PhraseTextParts(s, k, words);
      PhraseMatchesItsText(s, k + |words[0]| + 1, words[1..]);
      PhraseJoin(s, k, words);
    }
  }

  /** The words after the first of lower-case words are lower-case words. */
  lemma LowerWordsTail(words: seq<string>)
    requires |words| > 1 && LowerWords(words)
    ensures LowerWords(words[1..]) && |words[1]| > 0 && !IsWhitespace(words[1][0])
  {
    assert IsLowerLetter(words[1][0]);
  }

  /** Where the phrase sits in `s` and its other words match after the first
      word and a space, the whole phrase matches. */
  lemma PhraseJoin(s: string, k: nat, words: seq<string>)
    requires |words| > 1 && |words[1]| > 0 && !IsWhitespace(words[1][0])
    requires k + |PhraseText(words)| <= |s|
    requires Lower(s[k..k + |PhraseText(words)|]) == PhraseText(words)
    requires MatchTokens(s, k + |words[0]| + 1, Phrase(words[1..]))
      == Some(k + |words[0]| + 1 + |PhraseText(words[1..])|)
    ensures MatchTokens(s, k, Phrase(words)) == Some(k + |PhraseText(words)|)
  {
    PhraseTextParts(s, k, words);
    PhraseStep(s, k, words, k + |words[0]| + 1 + |PhraseText(words[1..])|);
  }

  /** The first word, one space before a non-space, then a match of the
      other words: a match of the whole phrase. */
  lemma PhraseStep(s: string, k: nat, words: seq<string>, e: nat)
    requires |words| > 1
    requires k + |words[0]| + 1 < |s| && Lower(s[k..k + |words[0]|]) == words[0]
    requires s[k + |words[0]|] == ' ' && !IsWhitespace(s[k + |words[0]| + 1])
    requires MatchTokens(s, k + |words[0]| + 1, Phrase(words[1..])) == Some(e)
    ensures MatchTokens(s, k, Phrase(words)) == Some(e)
  {
    var toks := Phrase(words);
    assert toks[1..][1..] == Phrase(words[1..]);
    LitStep(s, k, words[0], toks);
    GapStep(s, k + |words[0]|, toks[1..]);
  }

  /* ---------- the tables ---------- */

  /** `strongAdjectives`: the stronger word for an adjective after `very`. */
  const StrongAdjectives: map<string, string> := map[
    "good" := "excellent",
    "bad" := "terrible",
    "big" := "enormous",
    "small" := "tiny",
    "important" := "crucial",
    "interesting" := "fascinating",
    "nice" := "wonderful"]

  /** The trigger of the adjective rule, with its one space. */
  const VeryTrigger: string := "very "

  /** `/very\s+/i`: what the adjective rule drops when the table has no entry. */
  const VeryGap: Pattern := Pattern([Lit("very"), Gap], false)

  /** A fixed substitution: the phrase is looked for single-spaced, and its
      first `\s+`-separated occurrence is replaced. */
  datatype Rewrite = Rewrite(words: seq<string>, substitute: string) {
    function Trigger(): string { PhraseText(words) }
    function Expression(): Pattern { Pattern(Phrase(words), false) }
  }

  /** The fixed substitutions, in the order they are tried. */
  const Rewrites: seq<Rewrite> := [
    Rewrite(["a", "lot", "of"], "many"),
    Rewrite(["in", "order", "to"], "to"),
    Rewrite(["due", "to", "the", "fact", "that"], "because"),
    Rewrite(["that", "that"], "that"),
    Rewrite(["more", "better"], "better")]

  /** The first substitution, from `i` on, whose trigger occurs. */
  function ApplyRewrites(orig: string, rules: seq<Rewrite>, i: nat): Option<string>
    requires i <= |rules|
    decreases |rules| - i
  {
    if i == |rules| then None
    else if Contains(Lower(orig), rules[i].Trigger())
    then Some(ReplaceFirstMatch(orig, rules[i].Expression(), rules[i].substitute))
    else ApplyRewrites(orig, rules, i + 1)
  }

  /** The substitutions offer nothing exactly when no trigger occurs. */
  lemma {:induction false} NoRewriteIffNoTrigger(orig: string, rules: seq<Rewrite>, i: nat)
    requires i <= |rules|
    ensures ApplyRewrites(orig, rules, i).None? <==>
      forall j :: i <= j < |rules| ==> !Contains(Lower(orig), rules[j].Trigger())
    decreases |rules| - i
  {
    if i < |rules| {
      NoRewriteIffNoTrigger(orig, rules, i + 1);
    }
  }

  /** The adjective rule's answer for an `orig` that contains `very `. */
  function VeryRule(orig: string): string {
    var adjective := ReplaceFirst(Lower(orig), VeryTrigger, "");
    if adjective in StrongAdjectives then StrongAdjectives[adjective]
    else ReplaceFirstMatch(orig, VeryGap, "")
  }

  /** `generateReplacement(originalText, type)`; the category argument is
      not used by the source either. */
  function GenerateReplacement(orig: string): (r: Option<string>)
    ensures r.None? <==>
      !Contains(Lower(orig), VeryTrigger)
      && forall j :: 0 <= j < |Rewrites| ==> !Contains(Lower(orig), Rewrites[j].Trigger())
  {
    if Contains(Lower(orig), VeryTrigger) then Some(VeryRule(orig))
    else
      NoRewriteIffNoTrigger(orig, Rewrites, 0);
      ApplyRewrites(orig, Rewrites, 0)
  }

  /* ---------- what the rules give for the analyzer's matches ---------- */

  /** A phrase whose space at `o` follows a letter cannot occur in a string
      where no space follows that letter. */
  lemma NotContainedBySpace(s: string, key: string, o: nat)
    requires 0 < o < |key| && key[o] == ' ' && !IsWhitespace(key[o - 1])
    requires forall p :: 0 < p < |s| && s[p] == ' ' ==> s[p - 1] != key[o - 1]
    ensures !Contains(s, key)
  {
  }

  /** A phrase cannot occur where one of its characters is missing. */
  lemma NotContainedByChar(s: string, key: string, c: char)
    requires c in key && c !in s
    ensures !Contains(s, key)
  {
  }

  /** The characters of a phrase are its words' characters and spaces. */
  lemma {:induction false} PhraseTextChars(words: seq<string>, c: char)
    requires c != ' ' && forall i :: 0 <= i < |words| ==> c !in words[i]
    ensures c !in PhraseText(words)
    decreases |words|
  {
    if |words| > 1 {
      PhraseTextChars(words[1..], c);
    }
  }

  /** Every word's characters appear in the phrase. */
  lemma {:induction false} PhraseTextHasWord(words: seq<string>, i: nat, c: char)
    requires i < |words| && c in words[i]
    ensures c in PhraseText(words)
    decreases |words|
  {
    if |words| > 1 && i > 0 {
      PhraseTextHasWord(words[1..], i - 1, c);
    }
  }

  /** `c` is in the trigger of rewrite `i` and not in that of rewrite `j`. */
  lemma TellApart(i: nat, wi: nat, j: nat, c: char)
    requires i < |Rewrites| && j < |Rewrites| && c != ' '
    requires wi < |Rewrites[i].words| && c in Rewrites[i].words[wi]
    requires forall k :: 0 <= k < |Rewrites[j].words| ==> c !in Rewrites[j].words[k]
    ensures !Contains(Rewrites[j].Trigger(), Rewrites[i].Trigger())
  {
    PhraseTextHasWord(Rewrites[i].words, wi, c);
    PhraseTextChars(Rewrites[j].words, c);
    NotContainedByChar(Rewrites[j].Trigger(), Rewrites[i].Trigger(), c);
  }

  /** The `very ` trigger has a `v`, which no fixed phrase has. */
  lemma VeryTriggerAbsent(j: nat)
    requires j < |Rewrites|
    ensures !Contains(Rewrites[j].Trigger(), VeryTrigger)
  {
    PhraseTextChars(Rewrites[j].words, 'v');
    NotContainedByChar(Rewrites[j].Trigger(), VeryTrigger, 'v');
  }

  /** No trigger tried before the `j`-th rewrite occurs in its own
      single-spaced phrase: each lacks a letter of the earlier ones. */
  lemma EarlierTriggersAbsent(i: nat, j: nat)
    requires i < j < |Rewrites|
    ensures !Contains(Rewrites[j].Trigger(), Rewrites[i].Trigger())
  {
    if i == 0 {
      NoLAfterLot();
      TellApart(0, 1, j, 'l');
    } else if i == 1 {
      NoIAfterOrder();
      TellApart(1, 0, j, 'i');
    } else if i == 2 {
      NoDAfterFact();
      TellApart(2, 0, j, 'd');
    } else {
      NoHAfterThat();
      TellApart(3, 0, j, 'h');
    }
  }

  /** No word of the phrases from `from` on has the character `c`. */
  predicate LetterAbsentFrom(c: char, from: nat) {
    forall j, k :: from <= j < |Rewrites| && 0 <= k < |Rewrites[j].words| ==> c !in Rewrites[j].words[k]
  }

  lemma NoLAfterLot()
    ensures LetterAbsentFrom('l', 1)
  {
  }

  lemma NoIAfterOrder()
    ensures LetterAbsentFrom('i', 2)
  {
  }

  lemma NoDAfterFact()
    ensures LetterAbsentFrom('d', 3)
  {
  }

  lemma NoHAfterThat()
    ensures LetterAbsentFrom('h', 4)
  {
  }

  /** Rewrites whose triggers are absent are passed over. */
  lemma {:induction false} SkipRewrites(orig: string, rules: seq<Rewrite>, i: nat, j: nat)
    requires i <= j <= |rules|
    requires forall k :: i <= k < j ==> !Contains(Lower(orig), rules[k].Trigger())
    ensures ApplyRewrites(orig, rules, i) == ApplyRewrites(orig, rules, j)
    decreases j - i
  {
    if i < j {
      SkipRewrites(orig, rules, i + 1, j);
    }
  }

  /** A phrase written with single spaces gets its fixed substitute. */
  lemma SingleSpacedRewrite(orig: string, j: nat)
    requires j < |Rewrites| && Lower(orig) == Rewrites[j].Trigger()
    ensures GenerateReplacement(orig) == Some(Rewrites[j].substitute)
  {
    VeryTriggerAbsent(j);
    RewritesBeforeSkipped(orig, j);
    TriggerRewrites(orig, j);
    FromRewrites(orig, Rewrites[j].substitute);
  }

  lemma RewritesBeforeSkipped(orig: string, j: nat)
    requires j < |Rewrites| && Lower(orig) == Rewrites[j].Trigger()
    ensures ApplyRewrites(orig, Rewrites, 0) == ApplyRewrites(orig, Rewrites, j)
  {
    forall i | 0 <= i < j
      ensures !Contains(Lower(orig), Rewrites[i].Trigger())
    {
      EarlierTriggersAbsent(i, j);
    }
    SkipRewrites(orig, Rewrites, 0, j);
  }

  /** The `j`-th rewrite replaces its whole single-spaced phrase. */
  lemma TriggerRewrites(orig: string, j: nat)
    requires j < |Rewrites| && Lower(orig) == Rewrites[j].Trigger()
    ensures ApplyRewrites(orig, Rewrites, j) == Some(Rewrites[j].substitute)
  {
    RewriteWordsAreLower(j);
    RuleRewritesWhole(orig, Rewrites, j);
  }

  /** A rule of lower-case words, tried on exactly its single-spaced phrase,
      replaces all of it. */
  lemma RuleRewritesWhole(orig: string, rules: seq<Rewrite>, j: nat)
    requires j < |rules| && Lower(orig) == rules[j].Trigger()
    requires |rules[j].words| > 0 && LowerWords(rules[j].words)
    ensures ApplyRewrites(orig, rules, j) == Some(rules[j].substitute)
  {
    var rw := rules[j];
    assert OccursAt(Lower(orig), rw.Trigger(), 0);
    assert orig[0..|orig|] == orig;
    PhraseMatchesItsText(orig, 0, rw.words);
    assert FirstMatch(orig, rw.Expression(), 0) == Some(Span(0, |orig|));
    assert ReplaceFirstMatch(orig, rw.Expression(), rw.substitute) == rw.substitute;
  }

  lemma FromRewrites(orig: string, sub: string)
    requires !Contains(Lower(orig), VeryTrigger)
    requires ApplyRewrites(orig, Rewrites, 0) == Some(sub)
    ensures GenerateReplacement(orig) == Some(sub)
  {
  }

  lemma RewriteWordsAreLower(j: nat)
    requires j < |Rewrites|
    ensures LowerWords(Rewrites[j].words)
  {
    if j == 0 {
      assert LowerWords(["a", "lot", "of"]);
    } else if j == 1 {
      assert LowerWords(["in", "order", "to"]);
    } else if j == 2 {
      assert LowerWords(["due", "to", "the", "fact", "that"]);
    } else if j == 3 {
      assert LowerWords(["that", "that"]);
    } else {
      assert LowerWords(["more", "better"]);
    }
  }

  /* ---------- spans the analyzer's expressions match ---------- */

  /** In a phrase of several words the first space follows the first word's
      last letter. */
  lemma PhraseFirstSpace(words: seq<string>)
    requires |words| > 1 && |words[0]| > 0
    ensures |words[0]| < |PhraseText(words)|
    ensures PhraseText(words)[|words[0]|] == ' '
    ensures PhraseText(words)[|words[0]| - 1] == words[0][|words[0]| - 1]
  {
    assert PhraseText(words) == words[0] + " " + PhraseText(words[1..]);
  }

  /** Every fixed phrase has a space right after one of `a`, `n`, `e`, `t`. */
  lemma RewriteTriggerSpace(j: nat) returns (o: nat)
    requires j < |Rewrites|
    ensures 0 < o < |Rewrites[j].Trigger()| && Rewrites[j].Trigger()[o] == ' '
    ensures Rewrites[j].Trigger()[o - 1] in "ante"
  {
    var words := Rewrites[j].words;
    if j == 0 {
      assert words[0] == "a";
    } else if j == 1 {
      assert words[0] == "in";
    } else if j == 2 {
      assert words[0] == "due";
    } else if j == 3 {
      assert words[0] == "that";
    } else {
      assert words[0] == "more";
    }
    PhraseFirstSpace(words);
    o := |words[0]|;
  }

  /** Where every space follows whitespace or one of `i`, `m`, `y`, no fixed
      phrase occurs. */
  lemma NoRewriteTrigger(s: string)
    requires forall p :: 0 <= p < |s| && s[p] == ' ' ==>
      p > 0 && (IsWhitespace(s[p - 1]) || s[p - 1] in "imy")
    ensures forall j :: 0 <= j < |Rewrites| ==> !Contains(s, Rewrites[j].Trigger())
  {
    forall j | 0 <= j < |Rewrites|
      ensures !Contains(s, Rewrites[j].Trigger())
    {
      var o := RewriteTriggerSpace(j);
      NotContainedBySpace(s, Rewrites[j].Trigger(), o);
    }
  }

  /* ---------- phrases written with other whitespace ---------- */

  /** Every gap is a non-empty run of whitespace. */
  predicate WhitespaceRuns(gaps: seq<string>) {
    forall i :: 0 <= i < |gaps| ==> |gaps[i]| > 0 && AllWhitespace(gaps[i])
  }

  /** A match of a phrase's tokens reads, lower-cased, as its words with a
      whitespace run between each two. */
  lemma {:induction false} PhraseMatchGapped(s: string, k: nat, words: seq<string>, e: nat)
    returns (gaps: seq<string>)
    requires |words| > 0 && k <= |s|
    requires MatchTokens(s, k, Phrase(words)) == Some(e)
    ensures k <= e <= |s| && |gaps| == |words| - 1 && WhitespaceRuns(gaps)
    ensures Lower(s[k..e]) == Join(words, gaps)
    decreases |words|
  {
    var toks := Phrase(words);
    LitMatched(s, k, toks, e);
    var w := |words[0]|;
    if |words| == 1 {
      assert toks[1..] == [];
      gaps := [];
    } else {
      assert toks[1..][1..] == Phrase(words[1..]);
      var g := GapMatched(s, k + w, toks[1..], e);
      var rest := PhraseMatchGapped(s, g, words[1..], e);
      gaps := JoinStep(s, k, words, g, e, rest);
    }
  }

  /** The first word, a whitespace run up to `g` and a reading of the other
      words from `g` make a reading of the whole phrase. */
  lemma JoinStep(s: string, k: nat, words: seq<string>, g: nat, e: nat, rest: seq<string>)
    returns (gaps: seq<string>)
    requires |words| > 1 && k + |words[0]| < g <= e <= |s|
    requires Lower(s[k..k + |words[0]|]) == words[0]
    requires forall j :: k + |words[0]| <= j < g ==> IsWhitespace(s[j])
    requires |rest| == |words| - 2 && WhitespaceRuns(rest) && Lower(s[g..e]) == Join(words[1..], rest)
    ensures |gaps| == |words| - 1 && WhitespaceRuns(gaps) && Lower(s[k..e]) == Join(words, gaps)
  {
    var gap := Lower(s[k + |words[0]|..g]);
    gaps := [gap] + rest;
    assert gaps[1..] == rest;
    LowerThreeParts(s, k, k + |words[0]|, g, e);
  }

  /** The lower-cased slice `[k, e)` cut at `a` and `b`, with whitespace
      between them. */
  lemma LowerThreeParts(s: string, k: nat, a: nat, b: nat, e: nat)
    requires k <= a < b <= e <= |s|
    requires forall j :: a <= j < b ==> IsWhitespace(s[j])
    ensures Lower(s[k..e]) == Lower(s[k..a]) + Lower(s[a..b]) + Lower(s[b..e])
    ensures AllWhitespace(Lower(s[a..b]))
  {
    assert s[k..e] == s[k..a] + s[a..b] + s[b..e];
    LowerAppend(s[k..a] + s[a..b], s[b..e]);
    LowerAppend(s[k..a], s[a..b]);
  }

  /** The first and the last character of such a reading are letters. */
  lemma {:induction false} JoinEnds(words: seq<string>, gaps: seq<string>)
    requires |words| > 0 && |gaps| == |words| - 1 && LowerWords(words)
    ensures var u := Join(words, gaps);
      |u| > 0 && !IsWhitespace(u[0]) && !IsWhitespace(u[|u| - 1])
    decreases |words|
  {
    assert IsLowerLetter(words[0][0]);
    if |words| > 1 {
      LowerWordsTail(words);
      JoinEnds(words[1..], gaps[1..]);
    }
  }

  /** Such a reading has as many non-whitespace characters as the
      single-spaced phrase. */
  lemma {:induction false} JoinSolid(words: seq<string>, gaps: seq<string>)
    requires |words| > 0 && |gaps| == |words| - 1 && WhitespaceRuns(gaps)
    ensures var u := Join(words, gaps);
      |u| - WhitespaceCount(u) == |PhraseText(words)| - WhitespaceCount(PhraseText(words))
    decreases |words|
  {
    if |words| > 1 {
      var rest := Join(words[1..], gaps[1..]);
      JoinSolid(words[1..], gaps[1..]);
      WhitespaceCountAppend(words[0] + gaps[0], rest);
      WhitespaceCountAppend(words[0], gaps[0]);
      WhitespaceCountAll(gaps[0]);
      var tail := PhraseText(words[1..]);
      WhitespaceCountAppend(words[0] + " ", tail);
      WhitespaceCountAppend(words[0], " ");
    }
  }

  /** A piece with as many non-whitespace characters as `u`, which begins
      and ends with one, occurs in `u` only as the whole of `u`. */
  lemma OnlyWholeOccurrence(u: string, t: string)
    requires |u| > 0 && !IsWhitespace(u[0]) && !IsWhitespace(u[|u| - 1])
    requires |t| - WhitespaceCount(t) == |u| - WhitespaceCount(u) && t != u
    ensures !Contains(u, t)
  {
    forall q: nat | q + |t| <= |u|
      ensures !OccursAt(u, t, q)
    {
      var pre, mid, post := u[..q], u[q..q + |t|], u[q + |t|..];
      assert u == pre + mid + post;
      WhitespaceCountAppend(pre + mid, post);
      WhitespaceCountAppend(pre, mid);
      if q > 0 {
        assert pre[0] == u[0];
        SolidStartCount(pre);
      } else if q + |t| < |u| {
        assert post[|post| - 1] == u[|u| - 1];
        SolidEndCount(post);
      }
    }
  }

  predicate EndsWith(w: string, x: string) {
    |x| <= |w| && w[|w| - |x|..] == x
  }

  /** In such a reading a piece without whitespace that is followed by a
      space ends one of the words before the last. */
  lemma {:induction false} SpaceEndsWord(words: seq<string>, gaps: seq<string>, x: string)
    requires |words| > 0 && |gaps| == |words| - 1 && WhitespaceRuns(gaps) && LowerWords(words)
    requires |x| > 0 && forall j :: 0 <= j < |x| ==> !IsWhitespace(x[j])
    requires forall i :: 0 <= i < |words| - 1 ==> !EndsWith(words[i], x)
    ensures forall q: nat :: !OccursAt(Join(words, gaps), x + " ", q)
    decreases |words|
  {
    var u := Join(words, gaps);
    if |words| == 1 {
      forall q: nat
        ensures !OccursAt(u, x + " ", q)
      {
        if q + |x| + 1 <= |u| {
          SpaceAt(u, x, q);
        }
      }
    } else {
      LowerWordsTail(words);
      assert forall i :: 0 <= i < |words[1..]| - 1 ==> !EndsWith(words[1..][i], x) by {
        forall i | 0 <= i < |words[1..]| - 1 ensures !EndsWith(words[1..][i], x) {
          assert words[1..][i] == words[i + 1];
        }
      }
      assert WhitespaceRuns(gaps[1..]) by {
        forall i | 0 <= i < |gaps[1..]| ensures |gaps[1..][i]| > 0 && AllWhitespace(gaps[1..][i]) {
          assert gaps[1..][i] == gaps[i + 1];
        }
      }
      SpaceEndsWord(words[1..], gaps[1..], x);
      var rest := Join(words[1..], gaps[1..]);
      forall q: nat
        ensures !OccursAt(u, x + " ", q)
      {
        SpaceAfterWord(u, words[0], gaps[0], rest, x, q);
      }
    }
  }

  /** One step of the above: `x` and a space do not occur in a word, a
      whitespace run and the rest of the reading. */
  lemma SpaceAfterWord(u: string, word: string, gap: string, rest: string, x: string, q: nat)
    requires u == word + gap + rest && |gap| > 0 && AllWhitespace(gap)
    requires forall j :: 0 <= j < |word| ==> IsLowerLetter(word[j])
    requires |x| > 0 && forall j :: 0 <= j < |x| ==> !IsWhitespace(x[j])
    requires !EndsWith(word, x)
    requires forall p: nat :: !OccursAt(rest, x + " ", p)
    ensures !OccursAt(u, x + " ", q)
  {
    var w, g := |word|, |gap|;
    if q + |x| + 1 <= |u| {
      SpaceAt(u, x, q);
      if q + |x| < w {
        assert u[q + |x|] == word[q + |x|];
      } else if q + |x| == w {
        assert u[q..w] == word[w - |x|..];
      } else if q < w {
        assert u[w] == gap[0];
        assert (x + " ")[w - q] == x[w - q];
      } else if q < w + g {
        assert u[q] == gap[q - w];
        assert (x + " ")[0] == x[0];
      } else {
        assert u[q..q + |x| + 1] == rest[q - w - g..q - w - g + |x| + 1];
        assert OccursAt(u, x + " ", q) == OccursAt(rest, x + " ", q - w - g);
      }
    }
  }

  /** Where `x` and a space occur at `q`, `x` is at `q` and a space after it. */
  lemma SpaceAt(u: string, x: string, q: nat)
    requires q + |x| + 1 <= |u|
    ensures OccursAt(u, x + " ", q) ==>
      u[q + |x|] == ' ' && forall j :: 0 <= j < |x| ==> u[q + j] == x[j]
  {
    if OccursAt(u, x + " ", q) {
      assert u[q + |x|] == u[q..q + |x| + 1][|x|];
      forall j | 0 <= j < |x| ensures u[q + j] == x[j] {
        assert u[q + j] == u[q..q + |x| + 1][j];
      }
    }
  }

  /** A character missing from every word is missing from the reading. */
  lemma {:induction false} JoinChars(words: seq<string>, gaps: seq<string>, c: char)
    requires |words| > 0 && |gaps| == |words| - 1 && WhitespaceRuns(gaps) && !IsWhitespace(c)
    requires forall i :: 0 <= i < |words| ==> c !in words[i]
    ensures c !in Join(words, gaps)
    decreases |words|
  {
    if |words| > 1 {
      assert WhitespaceRuns(gaps[1..]) by {
        forall i | 0 <= i < |gaps[1..]| ensures |gaps[1..][i]| > 0 && AllWhitespace(gaps[1..][i]) {
          assert gaps[1..][i] == gaps[i + 1];
        }
      }
      assert forall i :: 0 <= i < |words[1..]| ==> c !in words[1..][i] by {
        forall i | 0 <= i < |words[1..]| ensures c !in words[1..][i] {
          assert words[1..][i] == words[i + 1];
        }
      }
      JoinChars(words[1..], gaps[1..], c);
      assert AllWhitespace(gaps[0]);
    }
  }

  /** `u` is the words of a phrase with whitespace runs between them. */
  predicate Gapped(u: string, words: seq<string>, gaps: seq<string>) {
    |words| > 0 && |gaps| == |words| - 1 && WhitespaceRuns(gaps) && u == Join(words, gaps)
  }

  /** No word of the phrases before the `upto`-th has the character `c`. */
  predicate LetterAbsentBelow(c: char, upto: nat) {
    forall j, k :: 0 <= j < upto && j < |Rewrites| && 0 <= k < |Rewrites[j].words| ==> c !in Rewrites[j].words[k]
  }

  lemma NoVAnywhere()
    ensures LetterAbsentFrom('v', 0)
  {
  }

  lemma NoIBeforeOrder()
    ensures LetterAbsentBelow('i', 1)
  {
  }

  lemma NoUBeforeDue()
    ensures LetterAbsentBelow('u', 2)
  {
  }

  lemma NoHBeforeThat()
    ensures LetterAbsentBelow('h', 2)
  {
  }

  lemma NoMBeforeMore()
    ensures LetterAbsentBelow('m', 4)
  {
  }

  /** A letter of phrase `j` that phrase `r` lacks keeps phrase `j` out of
      any reading of phrase `r`. */
  lemma TellApartGapped(u: string, r: nat, gaps: seq<string>, j: nat, wj: nat, c: char)
    requires r < |Rewrites| && j < |Rewrites| && Gapped(u, Rewrites[r].words, gaps)
    requires c != ' ' && !IsWhitespace(c)
    requires wj < |Rewrites[j].words| && c in Rewrites[j].words[wj]
    requires forall k :: 0 <= k < |Rewrites[r].words| ==> c !in Rewrites[r].words[k]
    ensures !Contains(u, Rewrites[j].Trigger())
  {
    JoinChars(Rewrites[r].words, gaps, c);
    PhraseTextHasWord(Rewrites[j].words, wj, c);
    NotContainedByChar(u, Rewrites[j].Trigger(), c);
  }

  /** `that that` is not in any reading of `due to the fact that`: its
      first `that` would have to end a word before the last. */
  lemma ThatThatOutsideDueTo(u: string, gaps: seq<string>)
    requires Gapped(u, Rewrites[2].words, gaps)
    ensures !Contains(u, Rewrites[3].Trigger())
  {
    var words := Rewrites[2].words;
    RewriteWordsAreLower(2);
    assert words == ["due", "to", "the", "fact", "that"];
    assert !EndsWith(words[0], "that") && !EndsWith(words[1], "that") && !EndsWith(words[2], "that");
    assert !EndsWith(words[3], "that");
    SpaceEndsWord(words, gaps, "that");
    var key := Rewrites[3].Trigger();
    assert key == "that that";
    assert key[..5] == "that" + " ";
    forall q: nat | q + |key| <= |u|
      ensures !OccursAt(u, key, q)
    {
      PrefixOccurs(u, key, "that" + " ", q);
    }
  }

  /** Where a text occurs, so does each of its prefixes. */
  lemma PrefixOccurs(u: string, key: string, p: string, q: nat)
    requires |p| <= |key| && key[..|p|] == p
    ensures OccursAt(u, key, q) ==> OccursAt(u, p, q)
  {
    if q + |key| <= |u| {
      assert u[q..q + |p|] == u[q..q + |key|][..|p|];
    }
  }

  /** Phrase `j` is not in a reading of phrase `r` other than the
      single-spaced one. */
  lemma GappedTriggerAbsent(u: string, r: nat, gaps: seq<string>, j: nat)
    requires r < |Rewrites| && j < |Rewrites| && Gapped(u, Rewrites[r].words, gaps)
    requires u != Rewrites[r].Trigger()
    ensures !Contains(u, Rewrites[j].Trigger())
  {
    if j == r {
      RewriteWordsAreLower(r);
      JoinEnds(Rewrites[r].words, gaps);
      JoinSolid(Rewrites[r].words, gaps);
      OnlyWholeOccurrence(u, Rewrites[r].Trigger());
    } else if j < r {
      EarlierLetterAbsent(u, r, gaps, j);
    } else if r == 2 && j == 3 {
      ThatThatOutsideDueTo(u, gaps);
    } else {
      LaterLetterAbsent(u, r, gaps, j);
    }
  }

  lemma EarlierLetterAbsent(u: string, r: nat, gaps: seq<string>, j: nat)
    requires j < r < |Rewrites| && Gapped(u, Rewrites[r].words, gaps)
    ensures !Contains(u, Rewrites[j].Trigger())
  {
    if j == 0 {
      NoLAfterLot();
      TellApartGapped(u, r, gaps, 0, 1, 'l');
    } else if j == 1 {
      NoIAfterOrder();
      TellApartGapped(u, r, gaps, 1, 0, 'i');
    } else if j == 2 {
      NoDAfterFact();
      TellApartGapped(u, r, gaps, 2, 0, 'd');
    } else {
      NoHAfterThat();
      TellApartGapped(u, r, gaps, 3, 0, 'h');
    }
  }

  lemma LaterLetterAbsent(u: string, r: nat, gaps: seq<string>, j: nat)
    requires r < j < |Rewrites| && !(r == 2 && j == 3) && Gapped(u, Rewrites[r].words, gaps)
    ensures !Contains(u, Rewrites[j].Trigger())
  {
    if j == 1 {
      NoIBeforeOrder();
      TellApartGapped(u, r, gaps, 1, 0, 'i');
    } else if j == 2 {
      NoUBeforeDue();
      TellApartGapped(u, r, gaps, 2, 0, 'u');
    } else if j == 3 {
      NoHBeforeThat();
      TellApartGapped(u, r, gaps, 3, 0, 'h');
    } else {
      NoMBeforeMore();
      TellApartGapped(u, r, gaps, 4, 0, 'm');
    }
  }

  /** A fixed phrase matched with any whitespace other than single spaces
      gets no rewrite: `very ` is not in it, and neither is any phrase. */
  lemma GappedPhraseNoRewrite(orig: string, r: nat, gaps: seq<string>)
    requires r < |Rewrites| && Gapped(Lower(orig), Rewrites[r].words, gaps)
    requires Lower(orig) != Rewrites[r].Trigger()
    ensures GenerateReplacement(orig) == None
  {
    var u := Lower(orig);
    NoVAnywhere();
    JoinChars(Rewrites[r].words, gaps, 'v');
    NotContainedByChar(u, VeryTrigger, 'v');
    forall j | 0 <= j < |Rewrites|
      ensures !Contains(u, Rewrites[j].Trigger())
    {
      GappedTriggerAbsent(u, r, gaps, j);
    }
  }

  /** What the rules offer for a match of the `j`-th phrase with `\s+`
      between its words: its substitute when the match is single-spaced,
      and nothing otherwise. */
  lemma PhraseMatchReplacement(s: string, k: nat, e: nat, j: nat)
    requires j < |Rewrites| && k <= |s|
    requires MatchTokens(s, k, Phrase(Rewrites[j].words)) == Some(e)
    ensures k <= e <= |s|
    ensures Lower(s[k..e]) == Rewrites[j].Trigger() ==>
      GenerateReplacement(s[k..e]) == Some(Rewrites[j].substitute)
    ensures Lower(s[k..e]) != Rewrites[j].Trigger() ==> GenerateReplacement(s[k..e]) == None
  {
    assert |Rewrites[j].words| > 0;
    var gaps := PhraseMatchGapped(s, k, Rewrites[j].words, e);
    if Lower(s[k..e]) == Rewrites[j].Trigger() {
      SingleSpacedRewrite(s[k..e], j);
    } else {
      GappedPhraseNoRewrite(s[k..e], j, gaps);
    }
  }

  /** The text of a `very\s+\w+` match: `very` in any case, a whitespace
      run ending at `g`, then word characters. */
  predicate VeryShape(orig: string, g: nat) {
    4 < g < |orig| && Lower(orig[..4]) == "very"
    && (forall j :: 4 <= j < g ==> IsWhitespace(orig[j]))
    && (forall j :: g <= j < |orig| ==> IsWordChar(orig[j]))
  }

  /** The only spaces of a `very` match are in its whitespace run. */
  lemma VeryShapeSpaces(orig: string, g: nat)
    requires VeryShape(orig, g)
    ensures forall p :: 0 <= p < |orig| && Lower(orig)[p] == ' ' ==> 4 <= p < g
  {
    LowerSlice(orig, 0, 4);
  }

  /** `very` followed by anything but a space has no trigger at all. */
  lemma VeryWithoutSpace(orig: string, g: nat)
    requires VeryShape(orig, g) && orig[4] != ' '
    ensures GenerateReplacement(orig) == None
  {
    var lower := Lower(orig);
    VeryShapeSpaces(orig, g);
    forall p | 0 <= p < |lower| && lower[p] == ' '
      ensures p > 0 && IsWhitespace(lower[p - 1])
    {
      assert p != 4;
    }
    NotContainedBySpace(lower, VeryTrigger, 4);
    NoRewriteTrigger(lower);
  }

  /** After `very` and one space, the adjective is the rest lower-cased. */
  lemma VeryAdjective(orig: string, g: nat)
    requires VeryShape(orig, g) && orig[4] == ' '
    ensures Contains(Lower(orig), VeryTrigger)
    ensures ReplaceFirst(Lower(orig), VeryTrigger, "") == Lower(orig[5..])
  {
    var lower := Lower(orig);
    LowerSlice(orig, 0, 4);
    assert lower[..5] == VeryTrigger;
    assert OccursAt(lower, VeryTrigger, 0);
    LowerSlice(orig, 5, |orig|);
  }

  /** `/very\s+/i` matches exactly `very` and the whitespace run. */
  lemma VeryGapMatch(orig: string, g: nat)
    requires VeryShape(orig, g)
    ensures ReplaceFirstMatch(orig, VeryGap, "") == orig[g..]
  {
    RunEndIs(orig, 4, g, Spaces);
    LitStep(orig, 0, "very", VeryGap.tokens);
    assert MatchAt(orig, 0, VeryGap) == Some(g);
    assert FirstMatch(orig, VeryGap, 0) == Some(Span(0, g));
  }

  /** An adjective key begins with a letter. */
  lemma AdjectiveKeysStartWithLetter(adj: string)
    requires adj in StrongAdjectives
    ensures |adj| > 0 && IsLowerLetter(adj[0])
  {
  }

  /** What the rules give for a `very\s+\w+` match: the table's stronger
      word when `very` is followed by exactly one space and a known
      adjective, `very\s+` dropped when it is followed by a space otherwise,
      and nothing when the whitespace run starts with any other character. */
  lemma VeryMatchReplacement(orig: string, g: nat)
    requires VeryShape(orig, g)
    ensures orig[4] != ' ' ==> GenerateReplacement(orig) == None
    ensures orig[4] == ' ' && g == 5 && Lower(orig[5..]) in StrongAdjectives ==>
      GenerateReplacement(orig) == Some(StrongAdjectives[Lower(orig[5..])])
    ensures orig[4] == ' ' && !(g == 5 && Lower(orig[5..]) in StrongAdjectives) ==>
      GenerateReplacement(orig) == Some(orig[g..])
  {
    if orig[4] != ' ' {
      VeryWithoutSpace(orig, g);
    } else {
      VeryAdjective(orig, g);
      VeryGapMatch(orig, g);
      var adjective := Lower(orig[5..]);
      if g > 5 && adjective in StrongAdjectives {
        AdjectiveKeysStartWithLetter(adjective);
      }
    }
  }

  /** The text of an `i\s+am\s+\w+ing` match. */
  predicate IAmShape(orig: string, g1: nat, g2: nat) {
    1 < g1 && g1 + 2 < g2 < |orig|
    && Lower(orig[..1]) == "i" && Lower(orig[g1..g1 + 2]) == "am"
    && (forall j :: 1 <= j < g1 ==> IsWhitespace(orig[j]))
    && (forall j :: g1 + 2 <= j < g2 ==> IsWhitespace(orig[j]))
    && (forall j :: g2 <= j < |orig| ==> IsWordChar(orig[j]))
  }

  /** `i am …ing` has no rewrite: its spaces follow `i`, `m` or whitespace. */
  lemma IAmHasNoReplacement(orig: string, g1: nat, g2: nat)
    requires IAmShape(orig, g1, g2)
    ensures GenerateReplacement(orig) == None
  {
    var lower := Lower(orig);
    forall p | 0 <= p < |lower| && lower[p] == ' '
      ensures p > 0 && (IsWhitespace(lower[p - 1]) || lower[p - 1] in "im")
    {
      LowerSlice(orig, 0, 1);
      LowerSlice(orig, g1, g1 + 2);
      assert lower[0] == 'i' && lower[g1] == 'a' && lower[g1 + 1] == 'm';
    }
    NotContainedBySpace(lower, VeryTrigger, 4);
    NoRewriteTrigger(lower);
  }

  /* ---------- the adjective table as a JavaScript object ---------- */

  /** The values a JavaScript property read can produce here. */
  datatype JsValue =
    | JsString(text: string)
    | JsUndefined
    | JsFunction(name: string)
    | JsObject(name: string)

  /** Methods every object literal inherits from `Object.prototype`. */
  const PrototypeMethods: set<string> := {
    "constructor", "hasOwnProperty", "isPrototypeOf", "propertyIsEnumerable",
    "toLocaleString", "toString", "valueOf", "__defineGetter__",
    "__defineSetter__", "__lookupGetter__", "__lookupSetter__"
  }

  /** Keys an object literal answers without owning them. */
  predicate IsInheritedKey(key: string) {
    key == "__proto__" || key in PrototypeMethods
  }

  /** `table[key]` on an object literal: own keys first, then the prototype
      chain, else `undefined`. */
  function ObjectLiteralGet(table: map<string, string>, key: string): (v: JsValue)
    ensures key in table ==> v == JsString(table[key])
    ensures key !in table && !IsInheritedKey(key) ==> v == JsUndefined
    ensures key !in table && IsInheritedKey(key) ==> !v.JsString? && !v.JsUndefined?
  {
    if key in table then JsString(table[key])
    else if key == "__proto__" then JsObject("Object.prototype")
    else if key in PrototypeMethods then JsFunction(key)
    else JsUndefined
  }

  /** JavaScript truthiness of the values above. */
  predicate Truthy(v: JsValue) {
    match v
    case JsString(t) => t != ""
    case JsUndefined => false
    case _ => true
  }

  /** The declared `string | undefined` view of an answer. */
  function AsJs(r: Option<string>): JsValue {
    match r
    case Some(t) => JsString(t)
    case None => JsUndefined
  }

  /** `generateReplacement` as written: the adjective is looked up on an
      object literal, so inherited keys answer too. Away from inherited keys
      it gives the own-key lookup's answer; an answer that is neither a
      string nor `undefined` comes only from an inherited key. */
  function GenerateReplacementAsWritten(orig: string): (r: JsValue)
    ensures !IsInheritedKey(ReplaceFirst(Lower(orig), VeryTrigger, "")) ==>
      r == AsJs(GenerateReplacement(orig))
    ensures !r.JsString? && !r.JsUndefined? ==>
      Contains(Lower(orig), VeryTrigger) && IsInheritedKey(ReplaceFirst(Lower(orig), VeryTrigger, ""))
  {
    if Contains(Lower(orig), VeryTrigger) then
      var looked := ObjectLiteralGet(StrongAdjectives, ReplaceFirst(Lower(orig), VeryTrigger, ""));
      if Truthy(looked) then looked else JsString(ReplaceFirstMatch(orig, VeryGap, ""))
    else AsJs(ApplyRewrites(orig, Rewrites, 0))
  }

  /** A `very` match whose adjective is an inherited key yields neither a
      string nor `undefined`. */
  lemma InheritedAdjectiveAsWritten(orig: string, g: nat)
    requires VeryShape(orig, g) && orig[4] == ' '
    requires IsInheritedKey(Lower(orig[5..]))
    ensures GenerateReplacementAsWritten(orig) ==
      ObjectLiteralGet(StrongAdjectives, Lower(orig[5..]))
    ensures !GenerateReplacementAsWritten(orig).JsString?
    ensures !GenerateReplacementAsWritten(orig).JsUndefined?
  {
    VeryAdjective(orig, g);
    var adjective := Lower(orig[5..]);
    InheritedNotInTable(adjective);
    assert ObjectLiteralGet(StrongAdjectives, adjective).JsObject?
      || ObjectLiteralGet(StrongAdjectives, adjective).JsFunction?;
  }

  /** No key of the adjective table is inherited. */
  lemma InheritedNotInTable(key: string)
    requires IsInheritedKey(key)
    ensures key !in StrongAdjectives
  {
    if key in StrongAdjectives {
      AdjectiveKeysStartWithLetter(key);
    }
  }

  /** `very __proto__` has the shape of a `very` match. */
  lemma ProtoText()
    ensures VeryShape("very __proto__", 5) && "very __proto__"[4] == ' '
    ensures Lower("very __proto__"[5..]) == "__proto__" == "very __proto__"[5..]
  {
    var orig := "very __proto__";
    assert Lower(orig[..4]) == "very";
    assert Lower(orig[5..]) == "__proto__";
  }

  /** `very __proto__`: the lookup reaches `Object.prototype`, and the
      "replacement" is an object rather than a string or `undefined`. */
  lemma ProtoAdjectiveAsWritten()
    ensures GenerateReplacementAsWritten("very __proto__") == JsObject("Object.prototype")
  {
    ProtoText();
    InheritedAdjectiveAsWritten("very __proto__", 5);
  }

  /** `very constructor` has the shape of a `very` match. */
  lemma ConstructorText()
    ensures VeryShape("very constructor", 5) && "very constructor"[4] == ' '
    ensures Lower("very constructor"[5..]) == "constructor"
  {
    var orig := "very constructor";
    assert Lower(orig[..4]) == "very";
    assert Lower(orig[5..]) == "constructor";
  }

  /** `very constructor`: the lookup returns the `Object` function. */
  lemma ConstructorAdjectiveAsWritten()
    ensures GenerateReplacementAsWritten("very constructor").JsFunction?
  {
    ConstructorText();
    InheritedAdjectiveAsWritten("very constructor", 5);
  }

  /** With the own-key lookup, `very __proto__` just loses its `very`. */
  lemma ProtoAdjectiveCorrected()
    ensures GenerateReplacement("very __proto__") == Some("__proto__")
  {
    ProtoText();
    VeryMatchReplacement("very __proto__", 5);
  }
}
