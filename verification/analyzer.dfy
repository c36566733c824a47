/** `analyzeText`: eight fixed expressions scanned over the whole text, then
    three checks on every sentence, and at most eight suggestions kept. The
    one-second delay before the analysis is left out. */
module Analyzer {
  import opened Wrappers
  import opened Text
  import opened Split
  import opened Matcher
  import opened Writing
  import opened Replacement

  /** One row of the expression table. */
  datatype PatternEntry = PatternEntry(expression: Pattern, explanation: string, category: Category)

  /** `\bi\s+am\s+\w+ing\b` */
  const IAmExpression: Pattern := Pattern([Lit("i"), Gap, Lit("am"), Gap, Word("ing", 1)], true)

  /** `\bthere\s+is\s+\w+\s+that\b` */
  const ThereIsExpression: Pattern :=
    Pattern([Lit("there"), Gap, Lit("is"), Gap, Word("", 1), Gap, Lit("that")], true)

  /** `\bvery\s+(\w+)\b` */
  const VeryExpression: Pattern := Pattern([Lit("very"), Gap, Word("", 1)], true)

  /** A fixed phrase with `\s+` between its words and `\b` at both ends. */
  function PhraseExpression(j: nat): Pattern
    requires j < |Rewrites|
  {
    Pattern(Phrase(Rewrites[j].words), true)
  }

  /** The explanations the table rows carry. */
  const IAmAdvice: string := "Consider using simple present tense instead of present continuous"
  const ThereIsAdvice: string := "Consider removing \"there is\" for more direct writing"
  const VeryAdvice: string := "Consider using a stronger adjective instead of \"very\""
  const InOrderToAdvice: string := "Consider using \"to\" instead of \"in order to\""
  const DueToAdvice: string := "Consider using \"because\" instead"
  const ALotOfAdvice: string := "Consider using \"many\", \"much\", or \"numerous\""
  const ThatThatAdvice: string := "Remove one \"that\" to avoid repetition"
  const MoreBetterAdvice: string := "Use \"better\" instead of \"more better\""

  /** The table, in the order it is scanned. The phrase rows reuse the
      phrases of the substitutions: 1 is `in order to`, 2 `due to the fact
      that`, 0 `a lot of`, 3 `that that`, 4 `more better`. */
  const GrammarPatterns: seq<PatternEntry> := [
    PatternEntry(IAmExpression, IAmAdvice, Grammar),
    PatternEntry(ThereIsExpression, ThereIsAdvice, Style),
    PatternEntry(VeryExpression, VeryAdvice, Style),
    PatternEntry(PhraseExpression(1), InOrderToAdvice, Clarity),
    PatternEntry(PhraseExpression(2), DueToAdvice, Clarity),
    PatternEntry(PhraseExpression(0), ALotOfAdvice, Style),
    PatternEntry(PhraseExpression(3), ThatThatAdvice, Grammar),
    PatternEntry(PhraseExpression(4), MoreBetterAdvice, Grammar)]

  /** The substitution whose phrase table row `p` (3 to 7) scans for. */
  function RewriteOfRow(p: nat): (j: nat)
    requires 3 <= p < |GrammarPatterns|
    ensures j < |Rewrites| && GrammarPatterns[p].expression == PhraseExpression(j)
  {
    [1, 2, 0, 3, 4][p - 3]
  }

  const SentenceStarters: seq<string> :=
    ["However,", "Moreover,", "Furthermore,", "In addition,", "Nevertheless,"]

  const MaxSuggestions: nat := 8

  const PassiveExplanation: string := "Consider using active voice for more engaging writing"
  const LongExplanation: string :=
    "Consider breaking this long sentence into shorter ones for better readability"
  const VarietyExplanation: string := "Consider varying sentence structure for better flow"

  /* ---------- the pattern phase ---------- */

  /** The suggestion for match number `mi` of row `p`. */
  function PatternSuggestion(text: string, p: nat, mi: nat, m: Span): Suggestion
    requires p < |GrammarPatterns| && m.start <= m.end <= |text|
  {
    var entry := GrammarPatterns[p];
    var found := text[m.start..m.end];
    Suggestion(RenderId(PatternKey(p, mi)), entry.category, SeverityOf(entry.category),
      found, GenerateReplacement(found), entry.explanation, m.start, m.end)
  }

  /** The matches of row `p`, in text order. */
  function Matches(text: string, p: nat): (r: seq<Span>)
    requires p < |GrammarPatterns|
    ensures forall mi :: 0 <= mi < |r| ==>
      r[mi].start < r[mi].end <= |text|
      && MatchAt(text, r[mi].start, GrammarPatterns[p].expression) == Some(r[mi].end)
  {
    PatternsStartWithWord(p);
    ScanAll(text, GrammarPatterns[p].expression)
  }

  /** Every row begins with a literal word, so no match is empty. */
  lemma PatternsStartWithWord(p: nat)
    requires p < |GrammarPatterns|
    ensures var tokens := GrammarPatterns[p].expression.tokens;
      |tokens| > 0 && tokens[0].Lit? && |tokens[0].word| > 0 && IsLowerLetter(tokens[0].word[0])
    ensures MinLength(GrammarPatterns[p].expression.tokens) > 0
  {
    var tokens := GrammarPatterns[p].expression.tokens;
    if p >= 3 {
      var words := Rewrites[RewriteOfRow(p)].words;
      RewriteWordsAreLower(RewriteOfRow(p));
      assert tokens[0] == Lit(words[0]);
    }
    assert tokens[0].Lit? && |tokens[0].word| > 0;
  }

  /** The suggestions of row `p`, one per match. */
  function PatternBlock(text: string, p: nat): (r: seq<Suggestion>)
    requires p < |GrammarPatterns|
  {
    var spans := Matches(text, p);
    seq(|spans|, mi requires 0 <= mi < |spans| => PatternSuggestion(text, p, mi, spans[mi]))
  }

  /** Rows `p` onward, in table order. */
  function PatternPhase(text: string, p: nat): (r: seq<Suggestion>)
    requires p <= |GrammarPatterns|
    decreases |GrammarPatterns| - p
  {
    if p == |GrammarPatterns| then [] else PatternBlock(text, p) + PatternPhase(text, p + 1)
  }

  /* ---------- the sentence phase ---------- */

  const PassiveVerbs: seq<string> := ["was", "were", "is", "are", "been", "being"]

  /** One alternative of `\b(was|were|is|are|been|being)\s+\w*ed\b`. */
  function PassiveExpression(v: string): Pattern {
    Pattern([Lit(v), Gap, Word("ed", 0)], true)
  }

  /** `.test` of the passive-voice expression: some alternative matches
      somewhere. */
  predicate IsPassive(t: string) {
    exists j :: 0 <= j < |PassiveVerbs| && FirstMatch(t, PassiveExpression(PassiveVerbs[j]), 0).Some?
  }

  /** `t.split(/\s+/).length`. */
  function WordCount(t: string): nat {
    |Split.Split(t, Spaces)|
  }

  /** A sentence suggestion for the trimmed sentence `t`, placed at the first
      occurrence of `t` in the text. */
  function SentenceSuggestion(text: string, key: IdKey, category: Category, severity: Severity,
                              t: string, replacement: Option<string>, explanation: string): Suggestion
  {
    var at := IndexOf(text, t);
    Suggestion(RenderId(key), category, severity, t, replacement, explanation, at, at + |t|)
  }

  function PassiveSuggestion(text: string, t: string, i: nat): Suggestion {
    SentenceSuggestion(text, PassiveKey(i), Style, Warning, t, None, PassiveExplanation)
  }

  function LongSuggestion(text: string, t: string, i: nat): Suggestion {
    SentenceSuggestion(text, LongKey(i), Clarity, Info, t, None, LongExplanation)
  }

  /** The rewrite offered for sentence `i`: a connective, a space, and the
      sentence in lower case. */
  function VarietyRewrite(t: string, i: nat): string {
    SentenceStarters[i % |SentenceStarters|] + " " + Lower(t)
  }

  function VarietySuggestion(text: string, t: string, i: nat): Suggestion {
    SentenceSuggestion(text, VarietyKey(i), Style, Info, t, Some(VarietyRewrite(t, i)), VarietyExplanation)
  }

  predicate IsLong(t: string) {
    WordCount(t) > 25
  }

  predicate WantsVariety(t: string, i: nat) {
    i > 0 && WordCount(t) < 8
  }

  /** The three checks on the trimmed sentence `t`, number `i`. */
  function SentenceChecks(text: string, t: string, i: nat): (r: seq<Suggestion>) {
    (if IsPassive(t) then [PassiveSuggestion(text, t, i)] else [])
    + (if IsLong(t) then [LongSuggestion(text, t, i)] else [])
    + (if WantsVariety(t, i) then [VarietySuggestion(text, t, i)] else [])
  }

  /** Each check is reported exactly when it fires, nothing else is, and a
      sentence gets at most two suggestions: it cannot be both longer than
      25 words and shorter than 8. */
  lemma SentenceChecksMembers(text: string, t: string, i: nat)
    ensures PassiveSuggestion(text, t, i) in SentenceChecks(text, t, i) <==> IsPassive(t)
    ensures LongSuggestion(text, t, i) in SentenceChecks(text, t, i) <==> IsLong(t)
    ensures VarietySuggestion(text, t, i) in SentenceChecks(text, t, i) <==> WantsVariety(t, i)
    ensures forall s :: s in SentenceChecks(text, t, i) ==>
      s in {PassiveSuggestion(text, t, i), LongSuggestion(text, t, i), VarietySuggestion(text, t, i)}
    ensures |SentenceChecks(text, t, i)| <= 2
  {
    var p, l, v := PassiveSuggestion(text, t, i), LongSuggestion(text, t, i), VarietySuggestion(text, t, i);
    ThreeDistinct(p, l, v, i);
    ThreeMembers(p, l, v, IsPassive(t), IsLong(t), WantsVariety(t, i));
  }

  /** Suggestions with the passive, long and variety keys of one sentence
      are three different suggestions. */
  lemma ThreeDistinct(p: Suggestion, l: Suggestion, v: Suggestion, i: nat)
    requires p.id == RenderId(PassiveKey(i)) && l.id == RenderId(LongKey(i)) && v.id == RenderId(VarietyKey(i))
    ensures p != l && p != v && l != v
  {
    ReadRenderedKey(PassiveKey(i));
    ReadRenderedKey(LongKey(i));
    ReadRenderedKey(VarietyKey(i));
  }

  /** Three different suggestions, each kept when its flag is set: each is
      kept exactly when flagged, nothing else is, and at most two are when
      the last two flags exclude each other. */
  lemma ThreeMembers(p: Suggestion, l: Suggestion, v: Suggestion, bp: bool, bl: bool, bv: bool)
    requires p != l && p != v && l != v
    ensures var r := (if bp then [p] else []) + (if bl then [l] else []) + (if bv then [v] else []);
      (p in r <==> bp) && (l in r <==> bl) && (v in r <==> bv)
      && (forall s :: s in r ==> s in {p, l, v})
      && (!(bl && bv) ==> |r| <= 2)
  {
  }

  /** The same three, carrying the passive, long and variety keys of
      sentence `i`, are listed in key order. */
  lemma ThreeKeys(p: Suggestion, l: Suggestion, v: Suggestion, bp: bool, bl: bool, bv: bool, i: nat)
    requires p.id == RenderId(PassiveKey(i)) && l.id == RenderId(LongKey(i)) && v.id == RenderId(VarietyKey(i))
    ensures var r := (if bp then [p] else []) + (if bl then [l] else []) + (if bv then [v] else []);
      WellKeyed(r) && Ordered(r)
      && forall a :: 0 <= a < |r| ==> Phase(KeyOf(r[a])) == 1 && Major(KeyOf(r[a])) == i
  {
    var ps := if bp then [p] else [];
    var ls := if bl then [l] else [];
    var vs := if bv then [v] else [];
    OptionalKeyed(p, bp, PassiveKey(i));
    OptionalKeyed(l, bl, LongKey(i));
    OptionalKeyed(v, bv, VarietyKey(i));
    ThreeCombined(ps, ls, vs, i);
  }

  /** A list of at most one suggestion carrying key `k`. */
  lemma OptionalKeyed(x: Suggestion, b: bool, k: IdKey)
    requires x.id == RenderId(k)
    ensures var xs := if b then [x] else [];
      WellKeyed(xs) && forall a :: 0 <= a < |xs| ==> KeyOf(xs[a]) == k
  {
    ReadRenderedKey(k);
  }

  /** Lists of at most one passive, long and variety suggestion of sentence
      `i`, joined in that order, are well keyed and in key order. */
  lemma ThreeCombined(ps: seq<Suggestion>, ls: seq<Suggestion>, vs: seq<Suggestion>, i: nat)
    requires |ps| <= 1 && |ls| <= 1 && |vs| <= 1
    requires WellKeyed(ps) && WellKeyed(ls) && WellKeyed(vs)
    requires forall a :: 0 <= a < |ps| ==> KeyOf(ps[a]) == PassiveKey(i)
    requires forall a :: 0 <= a < |ls| ==> KeyOf(ls[a]) == LongKey(i)
    requires forall a :: 0 <= a < |vs| ==> KeyOf(vs[a]) == VarietyKey(i)
    ensures WellKeyed(ps + ls + vs) && Ordered(ps + ls + vs)
    ensures forall a :: 0 <= a < |ps + ls + vs| ==>
      Phase(KeyOf((ps + ls + vs)[a])) == 1 && Major(KeyOf((ps + ls + vs)[a])) == i
  {
    ThreeOrdered(ps, ls, vs, i);
    ThreeSentence(ps, ls, vs, i);
    WellKeyedAppend(ps, ls);
    WellKeyedAppend(ps + ls, vs);
  }

  /** At most one passive, one long and one variety suggestion of sentence
      `i`, in that order, are in key order. */
  lemma ThreeOrdered(ps: seq<Suggestion>, ls: seq<Suggestion>, vs: seq<Suggestion>, i: nat)
    requires |ps| <= 1 && |ls| <= 1 && |vs| <= 1
    requires forall a :: 0 <= a < |ps| ==> KeyOf(ps[a]) == PassiveKey(i)
    requires forall a :: 0 <= a < |ls| ==> KeyOf(ls[a]) == LongKey(i)
    requires forall a :: 0 <= a < |vs| ==> KeyOf(vs[a]) == VarietyKey(i)
    ensures Ordered(ps + ls + vs)
  {
    OrderedAppend(ps, ls);
    OrderedAppend(ps + ls, vs);
  }

  /** The same lists carry sentence keys numbered `i`. */
  lemma ThreeSentence(ps: seq<Suggestion>, ls: seq<Suggestion>, vs: seq<Suggestion>, i: nat)
    requires forall a :: 0 <= a < |ps| ==> KeyOf(ps[a]) == PassiveKey(i)
    requires forall a :: 0 <= a < |ls| ==> KeyOf(ls[a]) == LongKey(i)
    requires forall a :: 0 <= a < |vs| ==> KeyOf(vs[a]) == VarietyKey(i)
    ensures forall a :: 0 <= a < |ps + ls + vs| ==>
      Phase(KeyOf((ps + ls + vs)[a])) == 1 && Major(KeyOf((ps + ls + vs)[a])) == i
  {
    var r := ps + ls + vs;
    forall a | 0 <= a < |r|
      ensures Phase(KeyOf(r[a])) == 1 && Major(KeyOf(r[a])) == i
    {
      if a < |ps| {
        assert r[a] == ps[a];
      } else if a < |ps| + |ls| {
        assert r[a] == ls[a - |ps|];
      } else {
        assert r[a] == vs[a - |ps| - |ls|];
      }
    }
  }

  /** Sentences `i` onward of `frags`, skipping the blank ones. */
  function SentencePhase(text: string, frags: seq<string>, i: nat): (r: seq<Suggestion>)
    requires i <= |frags|
    decreases |frags| - i
  {
    if i == |frags| then []
    else
      var t := Trim(frags[i]);
      (if t == [] then [] else SentenceChecks(text, t, i)) + SentencePhase(text, frags, i + 1)
  }

  /** Every suggestion, before the cut to eight. */
  function AllSuggestions(text: string): seq<Suggestion> {
    PatternPhase(text, 0) + SentencePhase(text, Split.Split(text, SentenceEnds), 0)
  }

  /** `analyzeText`. */
  function Analyze(text: string): (r: seq<Suggestion>)
    ensures |r| <= MaxSuggestions
  {
    var all := AllSuggestions(text);
    if |all| <= MaxSuggestions then all else all[..MaxSuggestions]
  }

  /* ---------- ids and order ---------- */

  /** The key a suggestion's id spells. */
  function KeyOf(s: Suggestion): IdKey {
    ReadKey(s.id)
  }

  /** 0 for the pattern phase, 1 for the sentence phase. */
  function Phase(k: IdKey): nat {
    if k.PatternKey? then 0 else 1
  }

  /** The table row, or the sentence number. */
  function Major(k: IdKey): nat {
    match k
    case PatternKey(p, _) => p
    case PassiveKey(i) => i
    case LongKey(i) => i
    case VarietyKey(i) => i
  }

  /** The match number, or the check's place among the three. */
  function Minor(k: IdKey): nat {
    match k
    case PatternKey(_, m) => m
    case PassiveKey(_) => 0
    case LongKey(_) => 1
    case VarietyKey(_) => 2
  }

  /** The order the analyzer emits keys in: phase, then row or sentence, then
      match or check. */
  predicate KeyLess(a: IdKey, b: IdKey) {
    Phase(a) < Phase(b)
    || (Phase(a) == Phase(b) && Major(a) < Major(b))
    || (Phase(a) == Phase(b) && Major(a) == Major(b) && Minor(a) < Minor(b))
  }

  /** Every id is the rendering of the key it reads as. */
  predicate WellKeyed(xs: seq<Suggestion>) {
    forall a :: 0 <= a < |xs| ==> RenderId(KeyOf(xs[a])) == xs[a].id
  }

  /** Keys strictly increase along the list. */
  predicate Ordered(xs: seq<Suggestion>) {
    forall a, b :: 0 <= a < b < |xs| ==> KeyLess(KeyOf(xs[a]), KeyOf(xs[b]))
  }

  lemma OrderedAppend(xs: seq<Suggestion>, ys: seq<Suggestion>)
    requires Ordered(xs) && Ordered(ys)
    requires forall a, b :: 0 <= a < |xs| && 0 <= b < |ys| ==> KeyLess(KeyOf(xs[a]), KeyOf(ys[b]))
    ensures Ordered(xs + ys)
  {
    var zs := xs + ys;
    forall a, b | 0 <= a < b < |zs|
      ensures KeyLess(KeyOf(zs[a]), KeyOf(zs[b]))
    {
      if b < |xs| {
        assert zs[a] == xs[a] && zs[b] == xs[b];
      } else if a < |xs| {
        assert zs[a] == xs[a] && zs[b] == ys[b - |xs|];
      } else {
        assert zs[a] == ys[a - |xs|] && zs[b] == ys[b - |xs|];
      }
    }
  }

  lemma WellKeyedAppend(xs: seq<Suggestion>, ys: seq<Suggestion>)
    requires WellKeyed(xs) && WellKeyed(ys)
    ensures WellKeyed(xs + ys)
  {
    var zs := xs + ys;
    forall a | 0 <= a < |zs|
      ensures RenderId(KeyOf(zs[a])) == zs[a].id
    {
      if a >= |xs| {
        assert zs[a] == ys[a - |xs|];
      }
    }
  }

  /** Match `mi` of row `p` has the id `p-mi`. */
  lemma PatternBlockKeys(text: string, p: nat)
    requires p < |GrammarPatterns|
    ensures forall mi :: 0 <= mi < |PatternBlock(text, p)| ==>
      KeyOf(PatternBlock(text, p)[mi]) == PatternKey(p, mi)
    ensures WellKeyed(PatternBlock(text, p)) && Ordered(PatternBlock(text, p))
  {
    var r := PatternBlock(text, p);
    forall mi | 0 <= mi < |r|
      ensures KeyOf(r[mi]) == PatternKey(p, mi)
    {
      ReadRenderedKey(PatternKey(p, mi));
    }
  }

  /** Pattern suggestions of row `p` or later, well keyed and in order. */
  predicate PatternKeyedFrom(xs: seq<Suggestion>, p: nat) {
    (forall a :: 0 <= a < |xs| ==> KeyOf(xs[a]).PatternKey? && KeyOf(xs[a]).pattern >= p)
    && WellKeyed(xs) && Ordered(xs)
  }

  /** Rows `p` onward: pattern keys of row `p` or later, in order. */
  lemma {:induction false} PatternPhaseKeys(text: string, p: nat)
    requires p <= |GrammarPatterns|
    ensures PatternKeyedFrom(PatternPhase(text, p), p)
    decreases |GrammarPatterns| - p
  {
    if p < |GrammarPatterns| {
      var block := PatternBlock(text, p);
      var rest := PatternPhase(text, p + 1);
      PatternBlockKeys(text, p);
      PatternPhaseKeys(text, p + 1);
      BlocksJoin(block, rest, p);
    }
  }

  /** The block of row `p`, then pattern suggestions of later rows: pattern
      keys of row `p` or later, in order. */
  lemma BlocksJoin(block: seq<Suggestion>, rest: seq<Suggestion>, p: nat)
    requires forall mi :: 0 <= mi < |block| ==> KeyOf(block[mi]) == PatternKey(p, mi)
    requires WellKeyed(block) && Ordered(block)
    requires PatternKeyedFrom(rest, p + 1)
    ensures PatternKeyedFrom(block + rest, p)
  {
    OrderedAppend(block, rest);
    WellKeyedAppend(block, rest);
    var r := block + rest;
    forall a | 0 <= a < |r|
      ensures KeyOf(r[a]).PatternKey? && KeyOf(r[a]).pattern >= p
    {
      if a >= |block| {
        assert r[a] == rest[a - |block|];
      }
    }
  }

  /** The checks on sentence `i` carry its number, in the order passive,
      long, variety. */
  lemma SentenceChecksKeys(text: string, t: string, i: nat)
    ensures forall a :: 0 <= a < |SentenceChecks(text, t, i)| ==>
      Phase(KeyOf(SentenceChecks(text, t, i)[a])) == 1 && Major(KeyOf(SentenceChecks(text, t, i)[a])) == i
    ensures WellKeyed(SentenceChecks(text, t, i)) && Ordered(SentenceChecks(text, t, i))
  {
    ThreeKeys(PassiveSuggestion(text, t, i), LongSuggestion(text, t, i), VarietySuggestion(text, t, i),
      IsPassive(t), IsLong(t), WantsVariety(t, i), i);
  }

  /** Every key is a sentence key numbered `i` or later. */
  predicate SentenceKeysFrom(xs: seq<Suggestion>, i: nat) {
    forall a :: 0 <= a < |xs| ==> Phase(KeyOf(xs[a])) == 1 && Major(KeyOf(xs[a])) >= i
  }

  lemma SentenceKeysAppend(xs: seq<Suggestion>, ys: seq<Suggestion>, i: nat)
    requires SentenceKeysFrom(xs, i) && SentenceKeysFrom(ys, i)
    ensures SentenceKeysFrom(xs + ys, i)
  {
    var zs := xs + ys;
    forall a | 0 <= a < |zs|
      ensures Phase(KeyOf(zs[a])) == 1 && Major(KeyOf(zs[a])) >= i
    {
      if a >= |xs| {
        assert zs[a] == ys[a - |xs|];
      }
    }
  }

  /** The checks on sentence `i`, or nothing for a blank sentence. */
  lemma SentenceHeadKeys(text: string, t: string, i: nat)
    ensures var head := if t == [] then [] else SentenceChecks(text, t, i);
      SentenceKeysFrom(head, i) && WellKeyed(head) && Ordered(head)
      && forall a :: 0 <= a < |head| ==> Major(KeyOf(head[a])) == i
  {
    SentenceChecksKeys(text, t, i);
  }

  /** Sentences `i` onward: sentence keys numbered `i` or later, in order. */
  lemma {:induction false} SentencePhaseKeys(text: string, frags: seq<string>, i: nat)
    requires i <= |frags|
    ensures SentenceKeysFrom(SentencePhase(text, frags, i), i)
    ensures WellKeyed(SentencePhase(text, frags, i)) && Ordered(SentencePhase(text, frags, i))
    decreases |frags| - i
  {
    if i < |frags| {
      var t := Trim(frags[i]);
      var head := if t == [] then [] else SentenceChecks(text, t, i);
      var rest := SentencePhase(text, frags, i + 1);
      SentenceHeadKeys(text, t, i);
      SentencePhaseKeys(text, frags, i + 1);
      SentenceKeysCons(head, rest, i);
    }
  }

  /** The checks on sentence `i` followed by those on later sentences. */
  lemma SentenceKeysCons(head: seq<Suggestion>, rest: seq<Suggestion>, i: nat)
    requires SentenceKeysFrom(head, i) && WellKeyed(head) && Ordered(head)
    requires forall a :: 0 <= a < |head| ==> Major(KeyOf(head[a])) == i
    requires SentenceKeysFrom(rest, i + 1) && WellKeyed(rest) && Ordered(rest)
    ensures SentenceKeysFrom(head + rest, i) && WellKeyed(head + rest) && Ordered(head + rest)
  {
    OrderedAppend(head, rest);
    WellKeyedAppend(head, rest);
    SentenceKeysAppend(head, rest, i);
  }

  /** Every suggestion before the cut: well-formed ids in emission order. */
  lemma AllSuggestionsOrdered(text: string)
    ensures WellKeyed(AllSuggestions(text)) && Ordered(AllSuggestions(text))
  {
    var frags := Split.Split(text, SentenceEnds);
    PatternPhaseKeys(text, 0);
    SentencePhaseKeys(text, frags, 0);
    OrderedAppend(PatternPhase(text, 0), SentencePhase(text, frags, 0));
    WellKeyedAppend(PatternPhase(text, 0), SentencePhase(text, frags, 0));
  }

  /** A prefix of an ordered, well-keyed list is ordered and well keyed,
      its ids are pairwise different, and its pattern keys come first. */
  lemma PrefixKeyed(xs: seq<Suggestion>, ys: seq<Suggestion>)
    requires WellKeyed(xs) && Ordered(xs) && |ys| <= |xs| && ys == xs[..|ys|]
    ensures WellKeyed(ys) && Ordered(ys)
    ensures forall a, b :: 0 <= a < b < |ys| ==> ys[a].id != ys[b].id
    ensures forall a, b :: 0 <= a < b < |ys| && KeyOf(ys[b]).PatternKey? ==> KeyOf(ys[a]).PatternKey?
  {
    assert forall a :: 0 <= a < |ys| ==> ys[a] == xs[a];
  }

  /** `analyzeText` keeps the first eight suggestions, in emission order. */
  lemma AnalyzeIsPrefix(text: string)
    ensures |Analyze(text)| == if |AllSuggestions(text)| <= MaxSuggestions then |AllSuggestions(text)| else MaxSuggestions
    ensures Analyze(text) == AllSuggestions(text)[..|Analyze(text)|]
  {
  }

  /** The ids `analyzeText` hands out name their rule: every id is the
      rendering of a key, the keys increase (pattern matches by row and
      match number, then the sentence checks by sentence), so no two
      suggestions share an id and no pattern suggestion follows a sentence
      suggestion. */
  lemma AnalyzeIds(text: string)
    ensures WellKeyed(Analyze(text)) && Ordered(Analyze(text))
    ensures forall a, b :: 0 <= a < b < |Analyze(text)| ==> Analyze(text)[a].id != Analyze(text)[b].id
    ensures forall a, b :: 0 <= a < b < |Analyze(text)| && KeyOf(Analyze(text)[b]).PatternKey? ==>
      KeyOf(Analyze(text)[a]).PatternKey?
  {
    AllSuggestionsOrdered(text);
    AnalyzeIsPrefix(text);
    PrefixKeyed(AllSuggestions(text), Analyze(text));
  }

  /* ---------- what each suggestion is ---------- */

  /** What the key of `s` says it is, and `s` is exactly that: the
      suggestion for match `mi` of row `p`, or the passive, long or variety
      check that fired on non-blank sentence `i` of `frags`. */
  predicate Explained(text: string, frags: seq<string>, s: Suggestion) {
    match KeyOf(s)
    case PatternKey(p, mi) =>
      p < |GrammarPatterns| && mi < |Matches(text, p)|
      && s == PatternSuggestion(text, p, mi, Matches(text, p)[mi])
    case PassiveKey(i) =>
      i < |frags| && Trim(frags[i]) != [] && IsPassive(Trim(frags[i]))
      && s == PassiveSuggestion(text, Trim(frags[i]), i)
    case LongKey(i) =>
      i < |frags| && Trim(frags[i]) != [] && IsLong(Trim(frags[i]))
      && s == LongSuggestion(text, Trim(frags[i]), i)
    case VarietyKey(i) =>
      i < |frags| && Trim(frags[i]) != [] && WantsVariety(Trim(frags[i]), i)
      && s == VarietySuggestion(text, Trim(frags[i]), i)
  }

  predicate AllExplained(text: string, frags: seq<string>, xs: seq<Suggestion>) {
    forall a :: 0 <= a < |xs| ==> Explained(text, frags, xs[a])
  }

  lemma ExplainedAppend(text: string, frags: seq<string>, xs: seq<Suggestion>, ys: seq<Suggestion>)
    requires AllExplained(text, frags, xs) && AllExplained(text, frags, ys)
    ensures AllExplained(text, frags, xs + ys)
  {
    var zs := xs + ys;
    forall a | 0 <= a < |zs|
      ensures Explained(text, frags, zs[a])
    {
      if a >= |xs| {
        assert zs[a] == ys[a - |xs|];
      }
    }
  }

  lemma PatternBlockExplained(text: string, frags: seq<string>, p: nat)
    requires p < |GrammarPatterns|
    ensures AllExplained(text, frags, PatternBlock(text, p))
  {
    var r := PatternBlock(text, p);
    PatternBlockKeys(text, p);
    forall a | 0 <= a < |r|
      ensures Explained(text, frags, r[a])
    {
      assert KeyOf(r[a]) == PatternKey(p, a);
    }
  }

  lemma {:induction false} PatternPhaseExplained(text: string, frags: seq<string>, p: nat)
    requires p <= |GrammarPatterns|
    ensures AllExplained(text, frags, PatternPhase(text, p))
    decreases |GrammarPatterns| - p
  {
    if p < |GrammarPatterns| {
      PatternBlockExplained(text, frags, p);
      PatternPhaseExplained(text, frags, p + 1);
      ExplainedAppend(text, frags, PatternBlock(text, p), PatternPhase(text, p + 1));
    }
  }

  /** A sentence suggestion carries the key it was made with. */
  lemma SentenceKeyOf(text: string, key: IdKey, c: Category, v: Severity,
                      t: string, rep: Option<string>, e: string)
    ensures KeyOf(SentenceSuggestion(text, key, c, v, t, rep, e)) == key
  {
    ReadRenderedKey(key);
  }

  lemma SingletonExplained(text: string, frags: seq<string>, x: Suggestion)
    requires Explained(text, frags, x)
    ensures AllExplained(text, frags, [x])
  {
  }

  lemma PassiveExplained(text: string, frags: seq<string>, i: nat)
    requires i < |frags| && Trim(frags[i]) != [] && IsPassive(Trim(frags[i]))
    ensures AllExplained(text, frags, [PassiveSuggestion(text, Trim(frags[i]), i)])
  {
    var t := Trim(frags[i]);
    SentenceKeyOf(text, PassiveKey(i), Style, Warning, t, None, PassiveExplanation);
    SingletonExplained(text, frags, PassiveSuggestion(text, t, i));
  }

  lemma LongExplained(text: string, frags: seq<string>, i: nat)
    requires i < |frags| && Trim(frags[i]) != [] && IsLong(Trim(frags[i]))
    ensures AllExplained(text, frags, [LongSuggestion(text, Trim(frags[i]), i)])
  {
    var t := Trim(frags[i]);
    SentenceKeyOf(text, LongKey(i), Clarity, Info, t, None, LongExplanation);
    SingletonExplained(text, frags, LongSuggestion(text, t, i));
  }

  lemma VarietyExplained(text: string, frags: seq<string>, i: nat)
    requires i < |frags| && Trim(frags[i]) != [] && WantsVariety(Trim(frags[i]), i)
    ensures AllExplained(text, frags, [VarietySuggestion(text, Trim(frags[i]), i)])
  {
    var t := Trim(frags[i]);
    SentenceKeyOf(text, VarietyKey(i), Style, Info, t, Some(VarietyRewrite(t, i)), VarietyExplanation);
    SingletonExplained(text, frags, VarietySuggestion(text, t, i));
  }

  lemma SentenceHeadExplained(text: string, frags: seq<string>, i: nat)
    requires i < |frags|
    ensures var t := Trim(frags[i]);
      AllExplained(text, frags, if t == [] then [] else SentenceChecks(text, t, i))
  {
    var t := Trim(frags[i]);
    if t != [] {
      var ps := if IsPassive(t) then [PassiveSuggestion(text, t, i)] else [];
      var ls := if IsLong(t) then [LongSuggestion(text, t, i)] else [];
      var vs := if WantsVariety(t, i) then [VarietySuggestion(text, t, i)] else [];
      if IsPassive(t) { PassiveExplained(text, frags, i); }
      if IsLong(t) { LongExplained(text, frags, i); }
      if WantsVariety(t, i) { VarietyExplained(text, frags, i); }
      ExplainedAppend(text, frags, ps, ls);
      ExplainedAppend(text, frags, ps + ls, vs);
      assert SentenceChecks(text, t, i) == ps + ls + vs;
    }
  }

  lemma {:induction false} SentencePhaseExplained(text: string, frags: seq<string>, i: nat)
    requires i <= |frags|
    ensures AllExplained(text, frags, SentencePhase(text, frags, i))
    decreases |frags| - i
  {
    if i < |frags| {
      var t := Trim(frags[i]);
      SentenceHeadExplained(text, frags, i);
      SentencePhaseExplained(text, frags, i + 1);
      ExplainedAppend(text, frags, if t == [] then [] else SentenceChecks(text, t, i),
        SentencePhase(text, frags, i + 1));
    }
  }

  lemma ExplainedPrefix(text: string, frags: seq<string>, xs: seq<Suggestion>, ys: seq<Suggestion>)
    requires AllExplained(text, frags, xs) && |ys| <= |xs| && ys == xs[..|ys|]
    ensures AllExplained(text, frags, ys)
  {
    assert forall a :: 0 <= a < |ys| ==> ys[a] == xs[a];
  }

  lemma AllSuggestionsExplained(text: string)
    ensures AllExplained(text, Split.Split(text, SentenceEnds), AllSuggestions(text))
  {
    var frags := Split.Split(text, SentenceEnds);
    PatternPhaseExplained(text, frags, 0);
    SentencePhaseExplained(text, frags, 0);
    ExplainedAppend(text, frags, PatternPhase(text, 0), SentencePhase(text, frags, 0));
  }

  /** Every suggestion `analyzeText` returns is what its id says: a match of
      the table row it names, or a check that fired on the sentence it
      names. */
  lemma AnalyzeExplained(text: string)
    ensures AllExplained(text, Split.Split(text, SentenceEnds), Analyze(text))
  {
    AllSuggestionsExplained(text);
    AnalyzeIsPrefix(text);
    ExplainedPrefix(text, Split.Split(text, SentenceEnds), AllSuggestions(text), Analyze(text));
  }

  /* ---------- nothing is dropped before the cut ---------- */

  lemma {:induction false} BlockInPhase(text: string, p0: nat, p: nat)
    requires p0 <= p < |GrammarPatterns|
    ensures forall x :: x in PatternBlock(text, p) ==> x in PatternPhase(text, p0)
    decreases p - p0
  {
    if p0 < p {
      BlockInPhase(text, p0 + 1, p);
    }
  }

  lemma {:induction false} ChecksInPhase(text: string, frags: seq<string>, i0: nat, i: nat)
    requires i0 <= i < |frags| && Trim(frags[i]) != []
    ensures forall x :: x in SentenceChecks(text, Trim(frags[i]), i) ==> x in SentencePhase(text, frags, i0)
    decreases i - i0
  {
    var head := if Trim(frags[i0]) == [] then [] else SentenceChecks(text, Trim(frags[i0]), i0);
    var rest := SentencePhase(text, frags, i0 + 1);
    assert SentencePhase(text, frags, i0) == head + rest;
    if i0 < i {
      ChecksInPhase(text, frags, i0 + 1, i);
      InRightPart(head, rest);
    } else {
      InLeftPart(head, rest);
    }
  }

  lemma InLeftPart<T>(xs: seq<T>, ys: seq<T>)
    ensures forall x :: x in xs ==> x in xs + ys
  {
  }

  lemma InRightPart<T>(xs: seq<T>, ys: seq<T>)
    ensures forall y :: y in ys ==> y in xs + ys
  {
  }

  /** Every match of every row has its suggestion in the full list. */
  lemma PatternMatchReported(text: string, p: nat, mi: nat)
    requires p < |GrammarPatterns| && mi < |Matches(text, p)|
    ensures PatternSuggestion(text, p, mi, Matches(text, p)[mi]) in AllSuggestions(text)
  {
    BlockInPhase(text, 0, p);
    assert PatternBlock(text, p)[mi] == PatternSuggestion(text, p, mi, Matches(text, p)[mi]);
  }

  /** Every check that fires on a non-blank sentence has its suggestion in
      the full list. */
  lemma SentenceCheckReported(text: string, i: nat)
    requires i < |Split.Split(text, SentenceEnds)|
    requires Trim(Split.Split(text, SentenceEnds)[i]) != []
    ensures var t := Trim(Split.Split(text, SentenceEnds)[i]);
      (IsPassive(t) ==> PassiveSuggestion(text, t, i) in AllSuggestions(text))
      && (IsLong(t) ==> LongSuggestion(text, t, i) in AllSuggestions(text))
      && (WantsVariety(t, i) ==> VarietySuggestion(text, t, i) in AllSuggestions(text))
  {
    var t := Trim(Split.Split(text, SentenceEnds)[i]);
    SentenceChecksMembers(text, t, i);
    ChecksInPhase(text, Split.Split(text, SentenceEnds), 0, i);
  }

  /* ---------- where each suggestion points ---------- */

  /** `[startIndex, endIndex)` is a non-empty span of the text that holds
      exactly `originalText`. */
  predicate Located(text: string, s: Suggestion) {
    0 <= s.startIndex <= s.endIndex <= |text|
    && s.endIndex - s.startIndex == |s.originalText| > 0
    && text[s.startIndex..s.endIndex] == s.originalText
  }

  /** A trimmed sentence is a piece of the text. */
  lemma TrimmedSentenceOccurs(text: string, i: nat)
    requires i < |Split.Split(text, SentenceEnds)|
    ensures Occurs(text, Trim(Split.Split(text, SentenceEnds)[i]))
  {
    var frag := Split.Split(text, SentenceEnds)[i];
    var t := Trim(frag);
    FragmentsOccur(text, SentenceEnds);
    assert frag in Split.Split(text, SentenceEnds);
    var a: nat :| a <= |text| && OccursAt(text, frag, a);
    var b: nat :| b <= |frag| && OccursAt(frag, t, b);
    OccursTransitive(text, frag, t, a, b);
  }

  /** An explained suggestion is located; a sentence suggestion at the
      first occurrence of its text. */
  lemma ExplainedLocated(text: string, s: Suggestion)
    requires Explained(text, Split.Split(text, SentenceEnds), s)
    ensures Located(text, s)
    ensures !KeyOf(s).PatternKey? ==>
      forall j: nat :: j < s.startIndex ==> !OccursAt(text, s.originalText, j)
  {
    if KeyOf(s).PatternKey? {
      PatternLocated(text, Split.Split(text, SentenceEnds), s);
    } else {
      var i := SentenceFields(text, Split.Split(text, SentenceEnds), s);
      TrimmedSentenceOccurs(text, i);
      FirstOccurrenceLocated(text, s);
    }
  }

  /** A pattern suggestion holds the matched text at the match's offsets. */
  lemma PatternLocated(text: string, frags: seq<string>, s: Suggestion)
    requires Explained(text, frags, s) && KeyOf(s).PatternKey?
    ensures Located(text, s)
  {
    var p, mi := KeyOf(s).pattern, KeyOf(s).matchIndex;
    var m := Matches(text, p)[mi];
    assert s == PatternSuggestion(text, p, mi, m);
    assert m.start < m.end <= |text|;
  }

  /** A sentence suggestion holds its trimmed sentence, placed where
      `indexOf` finds it. */
  lemma SentenceFields(text: string, frags: seq<string>, s: Suggestion) returns (i: nat)
    requires Explained(text, frags, s) && !KeyOf(s).PatternKey?
    ensures i < |frags| && s.originalText == Trim(frags[i]) != []
    ensures s.startIndex == IndexOf(text, s.originalText)
    ensures s.endIndex == s.startIndex + |s.originalText|
  {
    i := Major(KeyOf(s));
  }

  /** Offsets that `indexOf` gave to a text that occurs locate it, at its
      first occurrence. */
  lemma FirstOccurrenceLocated(text: string, s: Suggestion)
    requires Occurs(text, s.originalText) && s.originalText != []
    requires s.startIndex == IndexOf(text, s.originalText)
    requires s.endIndex == s.startIndex + |s.originalText|
    ensures Located(text, s)
    ensures forall j: nat :: j < s.startIndex ==> !OccursAt(text, s.originalText, j)
  {
  }

  /** Every suggestion's offsets locate its text in the analyzed text; a
      sentence suggestion points at the first place its sentence occurs,
      as `indexOf` finds it, which for a repeated sentence is the earliest
      copy. */
  lemma AnalyzeLocated(text: string)
    ensures forall s :: s in Analyze(text) ==> Located(text, s)
    ensures forall s :: s in Analyze(text) && !KeyOf(s).PatternKey? ==>
      forall j: nat :: j < s.startIndex ==> !OccursAt(text, s.originalText, j)
  {
    AnalyzeExplained(text);
    forall s | s in Analyze(text)
      ensures Located(text, s)
      ensures !KeyOf(s).PatternKey? ==>
        forall j: nat :: j < s.startIndex ==> !OccursAt(text, s.originalText, j)
    {
      MemberExplained(text, Split.Split(text, SentenceEnds), Analyze(text), s);
      ExplainedLocated(text, s);
    }
  }

  /* ---------- blank text ---------- */

  /** No row matches anywhere in a blank text: each starts with a letter. */
  lemma NoMatchInBlank(text: string, p: nat)
    requires p < |GrammarPatterns| && AllWhitespace(text)
    ensures Matches(text, p) == []
  {
    PatternsStartWithWord(p);
    var r := Matches(text, p);
    if |r| > 0 {
      NoMatchInWhitespace(text, r[0].start, GrammarPatterns[p].expression);
    }
  }

  lemma {:induction false} BlankPatternPhase(text: string, p: nat)
    requires p <= |GrammarPatterns| && AllWhitespace(text)
    ensures PatternPhase(text, p) == []
    decreases |GrammarPatterns| - p
  {
    if p < |GrammarPatterns| {
      NoMatchInBlank(text, p);
      BlankPatternPhase(text, p + 1);
    }
  }

  lemma {:induction false} BlankSentencePhase(text: string, frags: seq<string>, i: nat)
    requires i <= |frags| && forall j :: 0 <= j < |frags| ==> AllWhitespace(frags[j])
    ensures SentencePhase(text, frags, i) == []
    decreases |frags| - i
  {
    if i < |frags| {
      BlankSentencePhase(text, frags, i + 1);
    }
  }

  /** The sentences of a blank text are blank. */
  lemma BlankFragments(text: string)
    requires AllWhitespace(text)
    ensures forall j :: 0 <= j < |Split.Split(text, SentenceEnds)| ==> AllWhitespace(Split.Split(text, SentenceEnds)[j])
  {
    var frags := Split.Split(text, SentenceEnds);
    FragmentCharsFromInput(text, SentenceEnds);
    forall j | 0 <= j < |frags|
      ensures AllWhitespace(frags[j])
    {
      forall k | 0 <= k < |frags[j]|
        ensures IsWhitespace(frags[j][k])
      {
        assert frags[j][k] in frags[j];
      }
    }
  }

  /** A text of whitespace only, the empty text included, gets no
      suggestion at all. */
  lemma BlankTextHasNoSuggestions(text: string)
    requires AllWhitespace(text)
    ensures Analyze(text) == []
  {
    BlankPatternPhase(text, 0);
    BlankFragments(text);
    BlankSentencePhase(text, Split.Split(text, SentenceEnds), 0);
  }

  /* ---------- the rewrites offered for matches ---------- */

  /** A match that begins with a literal word and `\s+` has the word, then
      a whitespace run ending at `a`, then a match of the rest. */
  lemma LitGapMatched(text: string, k: nat, tokens: seq<Token>, e: nat) returns (a: nat)
    requires |tokens| >= 2 && tokens[0].Lit? && tokens[1].Gap?
    requires k <= |text| && MatchTokens(text, k, tokens) == Some(e)
    ensures k + |tokens[0].word| < a <= |text|
    ensures Lower(text[k..k + |tokens[0].word|]) == tokens[0].word
    ensures forall j :: k + |tokens[0].word| <= j < a ==> IsWhitespace(text[j])
    ensures MatchTokens(text, a, tokens[2..]) == Some(e)
  {
    LitMatched(text, k, tokens, e);
    var t1 := tokens[1..];
    a := GapMatched(text, k + |tokens[0].word|, t1, e);
    assert t1[1..] == tokens[2..];
  }

  /** Where the parts of a literal, gap, literal, gap, word match lie. */
  lemma FivePartMatch(text: string, k: nat, tokens: seq<Token>, e: nat) returns (a: nat, b: nat)
    requires |tokens| == 5 && tokens[0].Lit? && tokens[1].Gap? && tokens[2].Lit?
    requires tokens[3].Gap? && tokens[4].Word?
    requires k <= |text| && MatchTokens(text, k, tokens) == Some(e)
    ensures k + |tokens[0].word| < a && a + |tokens[2].word| < b
    ensures b + |tokens[4].suffix| + tokens[4].minStem <= e <= |text|
    ensures Lower(text[k..k + |tokens[0].word|]) == tokens[0].word
    ensures Lower(text[a..a + |tokens[2].word|]) == tokens[2].word
    ensures forall j :: k + |tokens[0].word| <= j < a ==> IsWhitespace(text[j])
    ensures forall j :: a + |tokens[2].word| <= j < b ==> IsWhitespace(text[j])
    ensures forall j :: b <= j < e ==> IsWordChar(text[j])
  {
    a := LitGapMatched(text, k, tokens, e);
    var t2 := tokens[2..];
    b := LitGapMatched(text, a, t2, e);
    var t4 := t2[2..];
    assert t4[0] == tokens[4];
    var c := WordMatched(text, b, t4, e);
  }

  /** The text of an `i am …ing` match has the shape `IAmShape` reads. */
  lemma IAmMatchShape(text: string, k: nat, e: nat) returns (g1: nat, g2: nat)
    requires k <= |text| && MatchAt(text, k, IAmExpression) == Some(e)
    ensures k <= e && IAmShape(text[k..e], g1, g2)
  {
    assert MatchTokens(text, k, IAmExpression.tokens) == Some(e);
    g1, g2 := IAmTokensShape(text, k, IAmExpression.tokens, e);
  }

  /** The same, for any token sequence spelling `i\s+am\s+\w+ing`. */
  lemma IAmTokensShape(text: string, k: nat, tokens: seq<Token>, e: nat) returns (g1: nat, g2: nat)
    requires |tokens| == 5 && tokens[0] == Lit("i") && tokens[1] == Gap && tokens[2] == Lit("am")
    requires tokens[3] == Gap && tokens[4] == Word("ing", 1)
    requires k <= |text| && MatchTokens(text, k, tokens) == Some(e)
    ensures k <= e && IAmShape(text[k..e], g1, g2)
  {
    var a, b := FivePartMatch(text, k, tokens, e);
    IAmPartsShape(text, k, e, a, b);
    g1, g2 := a - k, b - k;
  }

  /** The parts of an `i am …ing` match, read from the matched span. */
  lemma IAmPartsShape(text: string, k: nat, e: nat, a: nat, b: nat)
    requires k + 1 < a && a + 2 < b && b + 4 <= e <= |text|
    requires Lower(text[k..k + 1]) == "i" && Lower(text[a..a + 2]) == "am"
    requires forall j :: k + 1 <= j < a ==> IsWhitespace(text[j])
    requires forall j :: a + 2 <= j < b ==> IsWhitespace(text[j])
    requires forall j :: b <= j < e ==> IsWordChar(text[j])
    ensures IAmShape(text[k..e], a - k, b - k)
  {
    var orig := text[k..e];
    assert forall j :: 0 <= j < |orig| ==> orig[j] == text[k + j];
    assert orig[..1] == text[k..k + 1];
    assert orig[a - k..a - k + 2] == text[a..a + 2];
  }

  /** The text of a `very …` match has the shape `VeryShape` reads. */
  lemma VeryMatchShape(text: string, k: nat, e: nat) returns (g: nat)
    requires k <= |text| && MatchAt(text, k, VeryExpression) == Some(e)
    ensures k <= e && VeryShape(text[k..e], g)
  {
    var t0 := VeryExpression.tokens;
    assert MatchTokens(text, k, t0) == Some(e);
    LitMatched(text, k, t0, e);
    var a := GapMatched(text, k + 4, t0[1..], e);
    assert t0[1..][1..] == t0[2..];
    var c := WordMatched(text, a, t0[2..], e);
    assert t0[2..][1..] == [];
    var orig := text[k..e];
    g := a - k;
    assert orig[..4] == text[k..k + 4];
  }

  /** What the `very` rule offers for a `very …` match: the table's word
      after exactly one space and a listed adjective, the match without
      `very` and its whitespace after any other single space or longer run
      starting with a space, and nothing when the run starts with another
      whitespace character. */
  predicate VeryAnswer(orig: string, r: Option<string>) {
    exists g: nat :: g <= |orig| && VeryShape(orig, g)
      && (orig[4] != ' ' ==> r == None)
      && (orig[4] == ' ' && g == 5 && Lower(orig[5..]) in StrongAdjectives ==>
            r == Some(StrongAdjectives[Lower(orig[5..])]))
      && (orig[4] == ' ' && !(g == 5 && Lower(orig[5..]) in StrongAdjectives) ==>
            r == Some(orig[g..]))
  }

  lemma PatternSuggestionReplacement(text: string, p: nat, mi: nat)
    requires p < |GrammarPatterns| && mi < |Matches(text, p)|
    ensures var s := PatternSuggestion(text, p, mi, Matches(text, p)[mi]);
      (p == 0 ==> s.replacement == None)
      && (p == 2 ==> VeryAnswer(s.originalText, s.replacement))
      && (3 <= p && Lower(s.originalText) == Rewrites[RewriteOfRow(p)].Trigger() ==>
            s.replacement == Some(Rewrites[RewriteOfRow(p)].substitute))
      && (3 <= p && Lower(s.originalText) != Rewrites[RewriteOfRow(p)].Trigger() ==>
            s.replacement == None)
  {
    var m := Matches(text, p)[mi];
    var orig := text[m.start..m.end];
    if p == 0 {
      var g1, g2 := IAmMatchShape(text, m.start, m.end);
      IAmHasNoReplacement(orig, g1, g2);
    } else if p == 2 {
      var g := VeryMatchShape(text, m.start, m.end);
      VeryMatchReplacement(orig, g);
    } else if 3 <= p {
      MatchAtTokens(text, m.start, GrammarPatterns[p].expression, m.end);
      PhraseMatchReplacement(text, m.start, m.end, RewriteOfRow(p));
    }
  }

  /** A match of a phrase row written in the phrase's exact form: one space
      between words, any letter case. */
  predicate SingleSpacedPhrase(s: Suggestion) {
    KeyOf(s).PatternKey? && 3 <= KeyOf(s).pattern < |GrammarPatterns|
    && Lower(s.originalText) == Rewrites[RewriteOfRow(KeyOf(s).pattern)].Trigger()
  }

  /** A match of a phrase row written with other whitespace between its
      words. */
  predicate OtherSpacedPhrase(s: Suggestion) {
    KeyOf(s).PatternKey? && 3 <= KeyOf(s).pattern < |GrammarPatterns|
    && Lower(s.originalText) != Rewrites[RewriteOfRow(KeyOf(s).pattern)].Trigger()
  }

  /** The facts above, for one suggestion of the pattern phase. */
  lemma ExplainedReplacement(text: string, s: Suggestion)
    requires Explained(text, Split.Split(text, SentenceEnds), s) && KeyOf(s).PatternKey?
    ensures KeyOf(s).pattern == 0 ==> s.replacement == None
    ensures KeyOf(s).pattern == 2 ==> VeryAnswer(s.originalText, s.replacement)
    ensures SingleSpacedPhrase(s) ==>
      s.replacement == Some(Rewrites[RewriteOfRow(KeyOf(s).pattern)].substitute)
    ensures OtherSpacedPhrase(s) ==> s.replacement == None
  {
    PatternSuggestionReplacement(text, KeyOf(s).pattern, KeyOf(s).matchIndex);
  }

  /** Each member of a list where every element is explained is explained. */
  lemma MemberExplained(text: string, frags: seq<string>, xs: seq<Suggestion>, s: Suggestion)
    requires AllExplained(text, frags, xs) && s in xs
    ensures Explained(text, frags, s)
  {
    var a :| 0 <= a < |xs| && xs[a] == s;
  }

  /** The rewrites offered for pattern matches: none for `i am …ing`, the
      `very` rule's answer for `very …`, the fixed substitute for a phrase
      written with single spaces, and none for a phrase written with other
      whitespace. */
  lemma AnalyzeReplacements(text: string)
    ensures forall s :: s in Analyze(text) && KeyOf(s).PatternKey? && KeyOf(s).pattern == 0 ==>
      s.replacement == None
    ensures forall s :: s in Analyze(text) && KeyOf(s).PatternKey? && KeyOf(s).pattern == 2 ==>
      VeryAnswer(s.originalText, s.replacement)
    ensures forall s :: s in Analyze(text) && SingleSpacedPhrase(s) ==>
      s.replacement == Some(Rewrites[RewriteOfRow(KeyOf(s).pattern)].substitute)
    ensures forall s :: s in Analyze(text) && OtherSpacedPhrase(s) ==> s.replacement == None
  {
    AnalyzeExplained(text);
    forall s | s in Analyze(text) && KeyOf(s).PatternKey?
      ensures KeyOf(s).pattern == 0 ==> s.replacement == None
      ensures KeyOf(s).pattern == 2 ==> VeryAnswer(s.originalText, s.replacement)
      ensures SingleSpacedPhrase(s) ==>
        s.replacement == Some(Rewrites[RewriteOfRow(KeyOf(s).pattern)].substitute)
      ensures OtherSpacedPhrase(s) ==> s.replacement == None
    {
      MemberExplained(text, Split.Split(text, SentenceEnds), Analyze(text), s);
      ExplainedReplacement(text, s);
    }
  }

  /* ---------- what each kind of suggestion carries ---------- */

  /** The fields a suggestion's kind fixes. */
  predicate KindFacts(text: string, s: Suggestion) {
    var frags := Split.Split(text, SentenceEnds);
    match KeyOf(s)
    case PatternKey(p, _) =>
      p < |GrammarPatterns| && s.category == GrammarPatterns[p].category
      && s.severity == SeverityOf(s.category) && s.explanation == GrammarPatterns[p].explanation
      && 0 <= s.startIndex <= s.endIndex <= |text|
      && MatchAt(text, s.startIndex, GrammarPatterns[p].expression) == Some(s.endIndex)
      && s.originalText == text[s.startIndex..s.endIndex]
      && s.replacement == GenerateReplacement(s.originalText)
    case PassiveKey(i) =>
      i < |frags| && s.originalText == Trim(frags[i]) && IsPassive(s.originalText)
      && s.category == Style && s.severity == Warning && s.replacement == None
      && s.explanation == PassiveExplanation
    case LongKey(i) =>
      i < |frags| && s.originalText == Trim(frags[i]) && WordCount(s.originalText) > 25
      && s.category == Clarity && s.severity == Info && s.replacement == None
      && s.explanation == LongExplanation
    case VarietyKey(i) =>
      i < |frags| && s.originalText == Trim(frags[i]) && 0 < i && WordCount(s.originalText) < 8
      && s.category == Style && s.severity == Info
      && s.replacement == Some(SentenceStarters[i % |SentenceStarters|] + " " + Lower(s.originalText))
      && s.explanation == VarietyExplanation
  }

  lemma ExplainedKindFacts(text: string, s: Suggestion)
    requires Explained(text, Split.Split(text, SentenceEnds), s)
    ensures KindFacts(text, s)
  {
    ExplainedLocated(text, s);
  }

  /** Pattern suggestions take their category, severity (error, warning,
      info for grammar, style, clarity) and explanation from their row, are
      real matches of it, and offer `generateReplacement` of the matched
      text; a passive-voice suggestion is a trimmed sentence containing a
      `was|were|is|are|been|being …ed` phrase and offers no rewrite; a
      long-sentence one has more than 25 words and no rewrite; a variety
      one is a later sentence of fewer than 8 words and offers the
      connective for its number followed by the sentence in lower case.
      Each of the three checks carries its own fixed explanation. */
  lemma AnalyzeKindFacts(text: string)
    ensures forall s :: s in Analyze(text) ==> KindFacts(text, s)
  {
    AnalyzeExplained(text);
    forall s | s in Analyze(text)
      ensures KindFacts(text, s)
    {
      MemberExplained(text, Split.Split(text, SentenceEnds), Analyze(text), s);
      ExplainedKindFacts(text, s);
    }
  }
}
