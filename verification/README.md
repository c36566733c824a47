# Writing assistant core, modelled in Dafny

The writing assistant is a single-page editor. Its core is plain text
processing:

- **`analyzeText`** scans the text with eight fixed expressions ("i am
  …ing", "there is … that", "very …" and five wordy phrases). It then runs
  three checks on every sentence: passive voice, more than 25 words, and
  fewer than 8 words after the first sentence. It keeps the first eight
  suggestions.
- **`generateReplacement`** proposes a rewrite for a matched phrase. It
  swaps "very good" for a stronger adjective, or takes one of five fixed
  substitutions ("a lot of" becomes "many", and so on).
- **The statistics panel** counts words, sentences, paragraphs and
  characters. It computes a Flesch-like readability score, its label and a
  reading time, with a small syllable counter.
- **The editor page** applies a suggestion, dismisses one, filters the list
  into grammar, style and clarity tabs, and never analyzes a blank text.

The model is a set of pure functions over `string` (`seq<char>`):

| module | file | models |
|---|---|---|
| `Text` | text.dfy | `toLowerCase`, `trim`, `indexOf`, `includes`, `replace` with a string pattern, decimal rendering of indices |
| `Split` | split.dfy | `split` on `/[.!?]+/`, `/\s+/` and `/\n\s*\n/`, with JavaScript's fragment semantics |
| `SplitShape` | split_shape.dfy | the fragments and separator matches of a split put back together give the input; blank-line matches are leftmost and longest |
| `Matcher` | matcher.dfy | a matcher for the table's expressions: literal words, `\s+`, `\w+` with a suffix, `\b`, the `i` flag; `matchAll`, `test` and `replace` with an expression |
| `Writing` | writing.dfy | the `Suggestion` record and the ids `p-m`, `passive-i`, `long-sentence-i`, `variety-i` |
| `Replacement` | replacement.dfy | `generateReplacement`, the adjective table and the five substitutions |
| `Analyzer` | analyzer.dfy | `grammarPatterns`, `sentenceStarters`, `analyzeText` |
| `Stats` | stats.dfy | the statistics `useMemo`, `getReadabilityLabel`, `countSyllables` |
| `Editor` | editor.dfy | `applySuggestion`, `dismissSuggestion`, the tab filters, the blank-text guards |

Characters are ASCII:

- `\s` is space, tab, line feed, carriage return, vertical tab and form feed.
- `\w` is `[A-Za-z0-9_]`.
- Lower-casing maps `A`–`Z` only.

Each expression is written as a token sequence. A run of `\s+` or `\w+` is
matched greedily and never needs to give characters back: in every
expression of the table, the next token starts with a character the run
cannot contain, or is a word boundary. `matchAll` takes the leftmost match
and continues where it ended.

Numbers are exact: `real` stands in for JavaScript's doubles, and
`Math.round` is `floor(x + 0.5)`.

## Model

| member | source | states |
|---|---|---|
| Text.IndexOf | src/lib/ai-analyzer.ts:61-62 | The result is non-negative exactly when the text occurs. It is then the first position where it occurs; otherwise it is -1. |
| Text.ReplaceFirst | src/pages/Index.tsx:62 | Without an occurrence the string is unchanged. Otherwise the first occurrence becomes the replacement, the text before and after it is kept, and the length changes by the difference. |
| Text.Trim | src/lib/ai-analyzer.ts:49 | The result is a piece of the input. It is empty exactly when the input is all whitespace, and neither of its ends is whitespace. It is the input with its leading whitespace run cut off at the front and only whitespace cut off at the back. |
| Text.TrimPadded | src/lib/ai-analyzer.ts:49 | Trimming whitespace padding off a text whose ends are not whitespace gives that text back. |
| Text.ParseNatToString | src/lib/ai-analyzer.ts:31 | Rendering an index in decimal and parsing it back gives the index. |
| Split.Split | src/components/WritingStats.tsx:12-14 | A split always gives at least one fragment. |
| Split.SeparatorsCount | src/components/WritingStats.tsx:12-14 | A split cuts out one separator match fewer than it gives fragments. |
| Split.SeparatorsAreRuns | src/components/WritingStats.tsx:12-14 | Each separator match cut out is a non-empty run of the separator's characters. |
| SplitShape.SplitRebuilds | src/components/WritingStats.tsx:12-14 | Putting the separator matches back between the fragments, in order, gives the input: nothing is lost, moved or duplicated. |
| Split.SeparatorEndMaximal | src/components/WritingStats.tsx:12-14 | A separator match of `[.!?]+` or `\s+` stops only where the next character is outside its class, and a blank-line match starts and ends with a line feed. |
| Split.InnerFragmentsNonEmpty | src/lib/ai-analyzer.ts:46 | Splitting at runs of `.!?` or of whitespace gives no empty fragment except possibly the first and the last: each run is taken whole, so `"a..b"` gives `["a", "b"]`. |
| SplitShape.BlankLineSeparators | src/components/WritingStats.tsx:14 | Each match of `\n\s*\n` cut out of the text runs from a line feed to a line feed. |
| SplitShape.BlankLineFragmentsLeftmost | src/components/WritingStats.tsx:14 | No paragraph fragment contains a blank line, and no fragment followed by a match ends in a line feed followed by whitespace only: each match starts as early as it can. |
| SplitShape.BlankLineFragmentsLongest | src/components/WritingStats.tsx:14 | No fragment after a match starts with whitespace up to a line feed: each match runs as far as it can. |
| Split.FragmentsOccur | src/lib/ai-analyzer.ts:46 | Every fragment of a split is a piece of the input. |
| Split.FragmentsCover | src/lib/ai-analyzer.ts:46 | Every character outside the separator's class ends up in some fragment (by value; `SplitRebuilds` places it). |
| Split.FragmentsAvoidSeparators | src/lib/ai-analyzer.ts:67 | Splitting on terminator runs or whitespace runs leaves no terminator (or whitespace) in any fragment. |
| Split.FragmentCharsFromInput | src/components/WritingStats.tsx:13 | Every character of a fragment is a character of the input. |
| Split.NonBlank | src/components/WritingStats.tsx:13-14 | The filter keeps exactly the fragments that are not whitespace only, and never adds any. |
| Split.NonBlankAppend | src/components/WritingStats.tsx:13-14 | The filter keeps order: filtering a concatenation is concatenating the filtered parts. |
| Split.NonBlankCount | src/components/WritingStats.tsx:13-14 | The filter removes exactly as many fragments as are whitespace only. |
| Split.NonEmpty | src/components/WritingStats.tsx:12 | The filter keeps exactly the non-empty fragments. |
| Split.NonEmptyAppend | src/components/WritingStats.tsx:12 | The filter keeps order: filtering a concatenation is concatenating the filtered parts. |
| Split.NonEmptyCount | src/components/WritingStats.tsx:12 | The filter removes exactly as many fragments as are empty. |
| Split.NonEmptyKeepsAll | src/components/WritingStats.tsx:12 | Without empty fragments the filter keeps the list as it is. |
| Split.TrimmedSplitHasNoEmpty | src/components/WritingStats.tsx:12 | Splitting a trimmed, non-empty text at whitespace runs gives no empty fragment. |
| Matcher.MatchAt | src/lib/ai-analyzer.ts:5-12 | A match of a `\b…\b` expression starts and ends at word boundaries. It is at least as long as the expression's shortest match and stays inside the text. |
| Matcher.FirstMatch | src/lib/ai-analyzer.ts:117 | The leftmost match at or after the start: no match begins earlier, and none at all when the result is empty. |
| Matcher.ScanAll | src/lib/ai-analyzer.ts:26 | `matchAll` lists only real matches, in order and without overlap. Every position where the expression matches is covered by a listed match. |
| Matcher.ScanStep | src/lib/ai-analyzer.ts:26 | A leftmost match followed by a correct scan from where it ended is a correct scan. |
| Matcher.NoMatchInWhitespace | src/lib/ai-analyzer.ts:4-13 | An expression that begins with a non-space literal matches nowhere in a whitespace-only text. |
| Writing.ReadRenderedKey | src/lib/ai-analyzer.ts:31 | Reading back a rendered id (`p-m`, `passive-i`, `long-sentence-i`, `variety-i`) gives the key it was rendered from. |
| Writing.ParseIdExact | src/lib/ai-analyzer.ts:55 | An id parses to a key exactly when that key renders to the id. |
| Writing.RenderIdInjective | src/lib/ai-analyzer.ts:70 | Different keys render to different ids. |
| Replacement.GenerateReplacement | src/lib/ai-analyzer.ts:99-137 | There is no replacement exactly when the lower-cased text contains neither `very ` nor any of the five phrases. |
| Replacement.NoRewriteIffNoTrigger | src/lib/ai-analyzer.ts:116-136 | The chain of phrase rules from rule `i` on offers nothing exactly when none of their phrases occurs. |
| Replacement.SkipRewrites | src/lib/ai-analyzer.ts:116-134 | Rules whose phrase does not occur are passed over, so the result is that of the next rule. |
| Replacement.EarlierTriggersAbsent | src/lib/ai-analyzer.ts:116-134 | No phrase tried earlier occurs in a phrase tried later, because each later phrase lacks a letter of each earlier one. |
| Replacement.VeryTriggerAbsent | src/lib/ai-analyzer.ts:102 | `very ` occurs in none of the five phrases. |
| Replacement.PhraseMatchesItsText | src/lib/ai-analyzer.ts:117 | A single-spaced occurrence of a phrase, in any letter case, is matched whole by its `\s+` expression. |
| Replacement.RuleRewritesWhole | src/lib/ai-analyzer.ts:117 | A rule applied to exactly its own single-spaced phrase replaces all of it with its substitute. |
| Replacement.SingleSpacedRewrite | src/lib/ai-analyzer.ts:116-134 | A text that is exactly one of the phrases, single-spaced and in any case, gets that phrase's substitute. |
| Replacement.NoRewriteTrigger | src/lib/ai-analyzer.ts:116-134 | A text in which every space follows whitespace, `i`, `m` or `y` contains none of the five phrases. |
| Replacement.VeryAdjective | src/lib/ai-analyzer.ts:103 | For a `very` match with a space after `very`, removing `very ` from the lower-cased text leaves the lower-cased adjective. |
| Replacement.VeryGapMatch | src/lib/ai-analyzer.ts:113 | Removing `/very\s+/i` from a `very` match leaves the word after the whitespace. |
| Replacement.VeryMatchReplacement | src/lib/ai-analyzer.ts:102-114 | For a `very` match there are three cases. Without a space right after `very` there is no replacement. With a single space before a table adjective, the replacement is the stronger word. Otherwise it is the match without `very` and its whitespace. |
| Replacement.PhraseMatchGapped | src/lib/ai-analyzer.ts:8-12 | A match of a phrase row, lower-cased, is the phrase's words with a non-empty whitespace run between each two. |
| Replacement.GappedPhraseNoRewrite | src/lib/ai-analyzer.ts:116-136 | A text that is a phrase's words with whitespace runs between them, but not the single-spaced phrase, gets no replacement: no phrase occurs in it. |
| Replacement.PhraseMatchReplacement | src/lib/ai-analyzer.ts:116-136 | A match of a phrase row gets that phrase's substitute when it is written with single spaces, and no replacement otherwise. |
| Replacement.IAmHasNoReplacement | src/lib/ai-analyzer.ts:99-137 | An `i am …ing` match never gets a replacement. |
| Replacement.InheritedNotInTable | src/lib/ai-analyzer.ts:104-112 | No name inherited from `Object.prototype` is a key of the adjective table. |
| Replacement.ObjectLiteralGet | src/lib/ai-analyzer.ts:113 | A property read on an object literal gives the own value for a key. For an absent, non-inherited name it gives `undefined`. For an inherited name it gives something that is neither a string nor `undefined`. |
| Replacement.GenerateReplacementAsWritten | src/lib/ai-analyzer.ts:99-137 | When the adjective is not an inherited name, the source's lookup and the own-key lookup give the same answer. An answer that is neither a string nor `undefined` comes only from an inherited name after `very `. |
| Replacement.InheritedAdjectiveAsWritten | src/lib/ai-analyzer.ts:113 | For a `very` match whose word is an inherited name, the source returns the prototype's member, not a string. |
| Replacement.ProtoAdjectiveAsWritten | src/lib/ai-analyzer.ts:113 | For `very __proto__` the source returns `Object.prototype` itself. |
| Replacement.ConstructorAdjectiveAsWritten | src/lib/ai-analyzer.ts:113 | For `very constructor` the source returns a function. |
| Replacement.ProtoAdjectiveCorrected | src/lib/ai-analyzer.ts:113 | With the own-key lookup, `very __proto__` becomes `__proto__`. |
| Analyzer.RewriteOfRow | src/lib/ai-analyzer.ts:8-12 | Each phrase row of the table scans for exactly the phrase of one of the substitutions. |
| Analyzer.PatternsStartWithWord | src/lib/ai-analyzer.ts:4-13 | Every row begins with a lower-case literal word, so no row has an empty match. |
| Analyzer.Matches | src/lib/ai-analyzer.ts:26 | Every match of a row is a non-empty span of the text where the row's expression matches. |
| Analyzer.NoMatchInBlank | src/lib/ai-analyzer.ts:26 | No row matches in a whitespace-only text. |
| Analyzer.PatternMatchReported | src/lib/ai-analyzer.ts:25-43 | Every match of every row yields its suggestion before the cut to eight. |
| Analyzer.SentenceChecksMembers | src/lib/ai-analyzer.ts:52-93 | Each of the three checks on a sentence is reported exactly when it fires, and nothing else is. A sentence gets at most two suggestions, since it cannot have both more than 25 and fewer than 8 words. |
| Analyzer.SentenceCheckReported | src/lib/ai-analyzer.ts:48-94 | For every non-blank sentence, each check that fires yields its suggestion before the cut to eight. |
| Analyzer.ThreeKeys | src/lib/ai-analyzer.ts:55-84 | A sentence's suggestions carry its number, in the order passive, long, variety. |
| Analyzer.PatternPhaseKeys | src/lib/ai-analyzer.ts:25-43 | The pattern phase from row `p` on carries pattern ids of row `p` or later, each readable and in strictly increasing order. |
| Analyzer.SentencePhaseKeys | src/lib/ai-analyzer.ts:48-94 | The sentence phase from sentence `i` on carries sentence ids numbered `i` or later, in strictly increasing order. |
| Analyzer.AllSuggestionsOrdered | src/lib/ai-analyzer.ts:22-94 | Before the cut, every id is readable and the ids strictly increase in emission order. |
| Analyzer.Analyze | src/lib/ai-analyzer.ts:96 | At most eight suggestions are returned. |
| Analyzer.AnalyzeIsPrefix | src/lib/ai-analyzer.ts:96 | The result is the first `min(n, 8)` of the `n` suggestions produced. |
| Analyzer.AnalyzeIds | src/lib/ai-analyzer.ts:31 | The returned ids are pairwise different and in emission order, and pattern suggestions come before sentence suggestions. |
| Analyzer.AnalyzeExplained | src/lib/ai-analyzer.ts:18-97 | Every returned suggestion is either the suggestion for some match of some row, or that of a check firing on a non-blank trimmed sentence. |
| Analyzer.TrimmedSentenceOccurs | src/lib/ai-analyzer.ts:61 | A trimmed sentence always occurs in the text, so `indexOf` finds it. |
| Analyzer.AnalyzeLocated | src/lib/ai-analyzer.ts:37-38 | Every suggestion's span holds exactly its non-empty original text. For sentence suggestions, that span is the first occurrence of the text. |
| Analyzer.AnalyzeKindFacts | src/lib/ai-analyzer.ts:30-92 | A pattern suggestion is a real match of its row. It takes the row's category and explanation, and the severity error, warning or info for grammar, style or clarity. Its rewrite is `generateReplacement` of the matched text. A passive sentence is style/warning with the passive-voice explanation and no rewrite. A long one has over 25 words, is clarity/info with its explanation, and has no rewrite. A variety sentence is a later sentence of under 8 words with the variety explanation; it offers its connective followed by the sentence in lower case. |
| Analyzer.AnalyzeReplacements | src/lib/ai-analyzer.ts:35 | `i am …ing` suggestions offer no rewrite. `very` suggestions offer what the adjective rule gives. A phrase match written with single spaces offers that phrase's substitute; one written with any other whitespace offers no rewrite. |
| Analyzer.IAmMatchShape | src/lib/ai-analyzer.ts:5 | An `i am …ing` match is `i`, whitespace, `am`, whitespace and a word ending in `ing`. |
| Analyzer.VeryMatchShape | src/lib/ai-analyzer.ts:7 | A `very` match is `very`, whitespace and one word. |
| Analyzer.BlankTextHasNoSuggestions | src/lib/ai-analyzer.ts:18-97 | A whitespace-only text yields no suggestions. |
| Stats.RunsAndVowels | src/components/WritingStats.tsx:109-115 | There are at most as many vowel runs as vowels, and none exactly when the word has no vowel. |
| Stats.Syllables | src/components/WritingStats.tsx:104-122 | A word has at least one syllable. It has exactly one when it has at most one vowel run, or two runs and a final `e`. |
| Stats.CountSyllables | src/components/WritingStats.tsx:104-122 | The loop counts the vowel runs, drops a silent final `e` and floors the count at one, which is exactly the syllable count of the definition. |
| Stats.SyllablesAtMostVowels | src/components/WritingStats.tsx:104-122 | A word has no more syllables than vowels, and exactly one when it has no vowel. |
| Stats.WithoutWhitespace | src/components/WritingStats.tsx:16 | Removing `\s` keeps exactly the non-whitespace characters and never lengthens the text. |
| Stats.WithoutWhitespaceCount | src/components/WritingStats.tsx:16 | The removed characters are exactly the whitespace characters. |
| Stats.TotalSyllables | src/components/WritingStats.tsx:22 | The syllable total is at least the number of words. |
| Stats.SyllablesPerWord | src/components/WritingStats.tsx:22 | With no words the average is 0, because `NaN` becomes 0; otherwise it is at least 1. |
| Stats.WordsPerSentence | src/components/WritingStats.tsx:18 | With no sentence the average is 0; otherwise it times the sentence count is the word count. |
| Stats.FleschScore | src/components/WritingStats.tsx:21-25 | The raw score of an empty text is 206.835, and with at least one syllable per word it is at most 122.235. |
| Stats.FleschMonotone | src/components/WritingStats.tsx:21-25 | Longer sentences or more syllables per word never raise the raw score. |
| Stats.Clamp | src/components/WritingStats.tsx:23-25 | The score is cut into [0, 100] and left alone inside it. |
| Stats.Round | src/components/WritingStats.tsx:36 | Rounding gives the nearest integer, with halves rounded up. |
| Stats.RoundToTenth | src/components/WritingStats.tsx:36 | The value rounded to one decimal lies in (x - 0.05, x + 0.05]: halves go up. |
| Stats.ReadingMinutes | src/components/WritingStats.tsx:27 | The reading time is 0 exactly when there are no words. Otherwise it is the least number of minutes that covers the words at 200 words a minute. |
| Stats.ComputeStats | src/components/WritingStats.tsx:11-39 | The readability score lies in [0, 100], and the count without spaces never exceeds the character count. The average is 0 when there is no sentence (as for `"..."`, one word and no sentence); otherwise it is the words per sentence to within 0.05, rounded to one decimal. |
| Stats.BandOf | src/components/WritingStats.tsx:41-49 | Each label covers the scores from its threshold up to the next easier label's threshold. |
| Stats.BandMonotone | src/components/WritingStats.tsx:41-49 | A higher score never gets a harder label. |
| Stats.LabelsTellBands | src/components/WritingStats.tsx:41-48 | No two bands share a label, and no two share a colour. |
| Stats.ReadabilityLabel | src/components/WritingStats.tsx:41-51 | Each of the seven labels, and each of the seven colour classes, is returned exactly for its score interval: `Very Easy`/`text-green-600` from 90, `Easy`/`text-green-500` from 80 to 89, down to `Very Difficult`/`text-red-600` below 30. |
| Stats.WordsArePieces | src/components/WritingStats.tsx:12 | Every word is a non-empty piece of the text without whitespace. Every non-whitespace character belongs to some word. |
| Stats.WordsRebuildTrimmed | src/components/WritingStats.tsx:12 | For a text that is not blank, the words are all the pieces of the trimmed text, none dropped. With the whitespace runs put back between them they give the trimmed text. |
| Stats.NoWordsIffBlank | src/components/WritingStats.tsx:12 | The word count is zero exactly when the text is whitespace only. |
| Stats.NoSentencesIffOnlyPunctuation | src/components/WritingStats.tsx:13 | The sentence count is zero exactly when the text holds only whitespace and `.`, `!`, `?`. |
| Stats.NoParagraphsIffBlank | src/components/WritingStats.tsx:14 | The paragraph count is zero exactly when the text is whitespace only. |
| Stats.CountsAgree | src/components/WritingStats.tsx:11-39 | No words exactly when no paragraphs, sentences only with words, and a zero reading time exactly when there are no words. |
| Stats.NoSpacesCount | src/components/WritingStats.tsx:15-16 | The count without spaces plus the number of whitespace characters is the character count. |
| Stats.BlankTextStats | src/components/WritingStats.tsx:11-39 | A blank text has no words, sentences or paragraphs, average 0 and reading time 0. Its score clamps to 100, labelled `Very Easy`. |
| Editor.DismissKeeps | src/pages/Index.tsx:71 | The filter keeps exactly the suggestions with another id and never adds any. |
| Editor.DismissRemovesCount | src/pages/Index.tsx:71 | The filter removes exactly as many suggestions as carry the id. |
| Editor.DismissAppend | src/pages/Index.tsx:71 | The filter keeps order: filtering a concatenation is concatenating the filtered parts. |
| Editor.DismissAbsent | src/pages/Index.tsx:71 | Dismissing an id no suggestion carries changes nothing. |
| Editor.DismissIdempotent | src/pages/Index.tsx:71 | Dismissing twice is dismissing once. |
| Editor.DismissSuggestion | src/pages/Index.tsx:70-72 | Dismissing keeps the text and keeps exactly the suggestions with another id. |
| Editor.DismissAfterAnalysis | src/pages/Index.tsx:70-72 | After an analysis, dismissing a listed suggestion removes exactly one, since the ids are unique. |
| Editor.ApplyAsWritten | src/pages/Index.tsx:60-68 | Without a non-empty replacement nothing changes. Otherwise the suggestion is dropped, and the first occurrence of its original text, wherever it is, is replaced; if there is none the text stays. |
| Editor.Apply | src/pages/Index.tsx:60-68 | Corrected apply: it rewrites the suggestion's own span while that span still holds the original text, and otherwise behaves as the page does. |
| Editor.ApplyAgreesOnFirstCopy | src/pages/Index.tsx:62 | When the suggestion's span is the first copy of its text, both versions give the same result. |
| Editor.ApplyAsWrittenAtFirst | src/pages/Index.tsx:62 | When the original text first occurs right after `pre`, the page replaces it there. |
| Editor.ApplyAsWrittenRewritesFirstCopy | src/pages/Index.tsx:62 | Applying the suggestion for the second `a lot of` in `a lot of x, a lot of y` rewrites the first one. |
| Editor.ApplyRewritesPointedCopy | src/pages/Index.tsx:62 | The corrected apply rewrites the second one. |
| Editor.ByCategory | src/pages/Index.tsx:88-90 | A tab holds exactly the suggestions of its category. |
| Editor.TabsPartition | src/pages/Index.tsx:88-90 | The three tabs together hold every suggestion exactly once. |
| Editor.AnalyzeWriting | src/pages/Index.tsx:24-58 | A blank text is not analyzed. Otherwise the list becomes the analyzer's result, and the text is never changed. |
| Editor.OnTextChange | src/pages/Index.tsx:75-86 | A blank text clears the list at once. Any other edit keeps the list until the delayed analysis replaces it. |

## Left out

- The one-second delay in `analyzeText`, the 1.5-second debounce, the progress timer and the `try`/`catch` around the analysis are left out. They concern timing and display only; the delayed analysis is the `AnalyzeWriting` step.
- All rendering (JSX) is left out, including `SuggestionCard.tsx`, along with the `useCallback`/`useMemo` plumbing.
- `strongVerbs` is declared in the analyzer but never used.
- The `WritingAnalysis` type is not used by the code modelled here.
- Non-ASCII text is left out. JavaScript's `\s`, `\w`, `\b` and `toLowerCase` also act on Unicode spaces and letters; here only their ASCII behaviour is modelled.
- Floating point is left out. Scores, averages and rounding use exact rationals, so results that doubles round differently at the last bit are not modelled.
- Editor.ApplyAsWritten: inserts the replacement literally. JavaScript's `replace` would expand `$&`, `$1` and similar patterns in it, and a variety rewrite copies the user's sentence, which may contain them.
- Analyzer.Analyze: uses the own-key lookup of the adjective table, not the source's object-literal read. For `very constructor` the source's suggestion carries the `Object` function as its replacement, and for `very __proto__` it carries `Object.prototype`. Here they get `constructor` and `__proto__`. The as-written behaviour is `Replacement.GenerateReplacementAsWritten`; see Findings.
- Replacement.GenerateReplacement: the same own-key lookup. It differs from the source exactly on `very` followed by an inherited name such as `constructor` or `__proto__`, where the source returns a function or `Object.prototype` instead of a string.
- Editor.ApplyAsWrittenRewritesFirstCopy: the suggestion it applies is written out with the id, span and texts the analyzer gives the second `a lot of`. That the analyzer emits exactly this suggestion is not proved.
- The `type` argument of `generateReplacement` is ignored, as in the source.

## Findings

| source | as written | input that shows it | evidently intended | confidence | as-written member | corrected member |
|---|---|---|---|---|---|---|
| src/lib/ai-analyzer.ts:113 | `strongAdjectives[adjective]` reads through `Object.prototype` | the text `very constructor` (or `very __proto__`), which the `very` row matches | look up only the seven adjectives of the table and otherwise drop `very` | not executed | Replacement.ConstructorAdjectiveAsWritten | Replacement.ProtoAdjectiveCorrected |
| src/pages/Index.tsx:62 | `text.replace(originalText, replacement)` rewrites the first copy of the text | `a lot of x, a lot of y` with the suggestion for the second `a lot of` (span 12–20) | rewrite the span the suggestion points at | not executed | Editor.ApplyAsWrittenRewritesFirstCopy | Editor.ApplyRewritesPointedCopy |
