/** The figures the statistics panel shows for the text: counts of words,
    characters, sentences and paragraphs, the average sentence length, a
    Flesch-like readability score with its band, and the reading time. The
    arithmetic is exact over the reals; the browser's double-precision
    floating point is not modelled. */
module Stats {
  import opened Text
  import opened Split
  import opened SplitShape

  /* ---------- syllables ---------- */

  /** Whether a vowel run starts at `i`: a vowel not preceded by one. */
  predicate RunStartsAt(w: string, i: nat)
    requires i < |w|
  {
    IsVowel(w[i]) && (i == 0 || !IsVowel(w[i - 1]))
  }

  /** The number of maximal runs of vowels in `w`. */
  function VowelRuns(w: string): nat {
    if |w| == 0 then 0
    else VowelRuns(w[..|w| - 1]) + (if RunStartsAt(w, |w| - 1) then 1 else 0)
  }

  /** The number of vowels in `w`. */
  function VowelCount(w: string): nat {
    if |w| == 0 then 0
    else VowelCount(w[..|w| - 1]) + (if IsVowel(w[|w| - 1]) then 1 else 0)
  }

  /** There are never more runs than vowels, and there is a run exactly
      when there is a vowel. */
  lemma {:induction false} RunsAndVowels(w: string)
    ensures VowelRuns(w) <= VowelCount(w)
    ensures VowelRuns(w) == 0 <==> VowelCount(w) == 0
    ensures VowelCount(w) == 0 <==> forall i :: 0 <= i < |w| ==> !IsVowel(w[i])
  {
    if |w| > 0 {
      var u := w[..|w| - 1];
      RunsAndVowels(u);
      assert forall i :: 0 <= i < |u| ==> u[i] == w[i];
      if VowelCount(u) > 0 && !IsVowel(w[|w| - 1]) {
        var i :| 0 <= i < |u| && IsVowel(u[i]);
        assert IsVowel(w[i]);
      }
    }
  }

  /** `countSyllables`: one per vowel run, one fewer for a final lower-case
      `e` when there are several runs, and never fewer than one. */
  function Syllables(w: string): (n: nat)
    ensures n >= 1
    ensures n == 1 <==> VowelRuns(w) <= 1 || (VowelRuns(w) == 2 && |w| > 0 && w[|w| - 1] == 'e')
  {
    var runs := VowelRuns(w);
    var count := if |w| > 0 && w[|w| - 1] == 'e' && runs > 1 then runs - 1 else runs;
    if count < 1 then 1 else count
  }

  /** A word has at most as many syllables as vowels, and one syllable when
      it has no vowel. */
  lemma SyllablesAtMostVowels(w: string)
    ensures Syllables(w) <= if VowelCount(w) == 0 then 1 else VowelCount(w)
    ensures VowelCount(w) == 0 ==> Syllables(w) == 1
  {
    RunsAndVowels(w);
  }

  /** The loop of `countSyllables`, scanning left to right. */
  method CountSyllables(word: string) returns (n: nat)
    ensures n == Syllables(word)
  {
    var count := 0;
    var previousWasVowel := false;
    var i := 0;
    while i < |word|
      invariant 0 <= i <= |word|
      invariant count == VowelRuns(word[..i])
      invariant previousWasVowel == (i > 0 && IsVowel(word[i - 1]))
    {
      var isVowel := IsVowel(word[i]);
      assert word[..i + 1][..i] == word[..i];
      if isVowel && !previousWasVowel {
        count := count + 1;
      }
      previousWasVowel := isVowel;
      i := i + 1;
    }
    assert word[..i] == word;
    if |word| > 0 && word[|word| - 1] == 'e' && count > 1 {
      count := count - 1;
    }
    n := if count < 1 then 1 else count;
  }

  /* ---------- the pieces the panel counts ---------- */

  /** `text.trim().split(/\s+/)` without its empty pieces. */
  function Words(text: string): seq<string> {
    NonEmpty(Split.Split(Trim(text), Spaces))
  }

  /** `text.split(/[.!?]+/)` without its blank pieces. */
  function Sentences(text: string): seq<string> {
    NonBlank(Split.Split(text, SentenceEnds))
  }

  /** `text.split(/\n\s*\n/)` without its blank pieces. */
  function Paragraphs(text: string): seq<string> {
    NonBlank(Split.Split(text, BlankLines))
  }

  /** `text.replace(/\s/g, '')`. */
  function WithoutWhitespace(text: string): (r: string)
    ensures |r| <= |text|
    ensures forall c :: c in r <==> c in text && !IsWhitespace(c)
  {
    if text == [] then []
    else (if IsWhitespace(text[0]) then [] else [text[0]]) + WithoutWhitespace(text[1..])
  }

  /** Removing whitespace removes exactly the whitespace characters. */
  lemma {:induction false} WithoutWhitespaceCount(text: string)
    ensures |WithoutWhitespace(text)| + WhitespaceCount(text) == |text|
  {
    if text != [] {
      WithoutWhitespaceCount(text[1..]);
    }
  }

  /* ---------- readability ---------- */

  /** The sum of the syllable counts of `words`. */
  function TotalSyllables(words: seq<string>): (n: nat)
    ensures n >= |words|
  {
    if words == [] then 0 else Syllables(words[0]) + TotalSyllables(words[1..])
  }

  /** `sentences.length > 0 ? words.length / sentences.length : 0`: the
      words shared out evenly over the sentences, and 0 with no sentence. */
  function WordsPerSentence(wordCount: nat, sentenceCount: nat): (r: real)
    ensures sentenceCount == 0 ==> r == 0.0
    ensures sentenceCount > 0 ==> r * sentenceCount as real == wordCount as real
    ensures r >= 0.0
  {
    if sentenceCount > 0 then wordCount as real / sentenceCount as real else 0.0
  }

  /** `total / words.length || 0`: with no words the quotient is NaN, which
      `|| 0` turns into 0; otherwise the total is at least the number of
      words, so the quotient is at least 1. */
  function SyllablesPerWord(words: seq<string>): (r: real)
    ensures |words| > 0 ==> r >= 1.0
    ensures |words| == 0 ==> r == 0.0
  {
    if |words| == 0 then 0.0
    else
      QuotientAtLeastOne(TotalSyllables(words), |words|);
      TotalSyllables(words) as real / |words| as real
  }

  lemma QuotientAtLeastOne(a: nat, b: nat)
    requires 0 < b <= a
    ensures a as real / b as real >= 1.0
  {
    var q := a as real / b as real;
    assert q * (b as real) == a as real;
    assert (q - 1.0) * (b as real) == (a - b) as real;
  }

  /** `206.835 - 1.015 * wordsPerSentence - 84.6 * syllablesPerWord`: with no
      words the raw score is 206.835; with words, whose average is at least
      one syllable, it is at most 122.235. */
  function FleschScore(wordsPerSentence: real, syllablesPerWord: real): (r: real)
    ensures wordsPerSentence == 0.0 && syllablesPerWord == 0.0 ==> r == 206.835
    ensures wordsPerSentence >= 0.0 && syllablesPerWord >= 1.0 ==> r <= 122.235
  {
    206.835 - 1.015 * wordsPerSentence - 84.6 * syllablesPerWord
  }

  /** Longer sentences or more syllables per word never raise the score. */
  lemma FleschMonotone(w1: real, s1: real, w2: real, s2: real)
    requires w1 <= w2 && s1 <= s2
    ensures FleschScore(w2, s2) <= FleschScore(w1, s1)
  {
  }

  /** `Math.max(0, Math.min(100, x))`. */
  function Clamp(x: real): (r: real)
    ensures 0.0 <= r <= 100.0
    ensures 0.0 <= x <= 100.0 ==> r == x
    ensures x < 0.0 ==> r == 0.0
    ensures x > 100.0 ==> r == 100.0
  {
    if x < 0.0 then 0.0 else if x > 100.0 then 100.0 else x
  }

  /** `Math.round`: the nearest integer, halves rounded up. */
  function Round(x: real): (r: int)
    ensures r as real - 0.5 <= x < r as real + 0.5
  {
    (x + 0.5).Floor
  }

  /** `Math.round(x * 10) / 10`: `x` to the nearest tenth. */
  function RoundToTenth(x: real): (r: real)
    ensures x - 0.05 < r <= x + 0.05
  {
    var n := Round(x * 10.0);
    var r := n as real / 10.0;
    assert r * 10.0 == n as real;
    assert (r - x) * 10.0 == n as real - x * 10.0;
    r
  }

  /** `Math.ceil(n / 200)` for a count of words. */
  function ReadingMinutes(wordCount: nat): (m: nat)
    ensures m == 0 <==> wordCount == 0
    ensures m > 0 ==> 200 * (m - 1) < wordCount <= 200 * m
  {
    (wordCount + 199) / 200
  }

  /** What the panel shows. */
  datatype WritingStats = WritingStats(
    wordCount: nat,
    characterCount: nat,
    characterCountNoSpaces: nat,
    sentenceCount: nat,
    paragraphCount: nat,
    averageWordsPerSentence: real,
    readabilityScore: int,
    readingTime: nat)

  /** The statistics `useMemo`. The average is 0 whenever there is no
      sentence, and otherwise the words per sentence rounded to one decimal. */
  function ComputeStats(text: string): (st: WritingStats)
    ensures 0 <= st.readabilityScore <= 100
    ensures st.characterCountNoSpaces <= st.characterCount
    ensures st.sentenceCount == 0 ==> st.averageWordsPerSentence == 0.0
    ensures st.sentenceCount > 0 ==>
      var exact := st.wordCount as real / st.sentenceCount as real;
      exact - 0.05 < st.averageWordsPerSentence <= exact + 0.05
  {
    var words := Words(text);
    var sentences := Sentences(text);
    var perSentence := WordsPerSentence(|words|, |sentences|);
    var score := Clamp(FleschScore(perSentence, SyllablesPerWord(words)));
    WritingStats(
      |words|, |text|, |WithoutWhitespace(text)|, |sentences|, |Paragraphs(text)|,
      RoundToTenth(perSentence), Round(score), ReadingMinutes(|words|))
  }

  /* ---------- the readability bands ---------- */

  datatype Band = VeryEasy | Easy | FairlyEasy | Standard | FairlyDifficult | Difficult | VeryDifficult

  /** The next easier band; the easiest is its own. */
  function Easier(b: Band): Band {
    match b
    case VeryEasy => VeryEasy
    case Easy => VeryEasy
    case FairlyEasy => Easy
    case Standard => FairlyEasy
    case FairlyDifficult => Standard
    case Difficult => FairlyDifficult
    case VeryDifficult => Difficult
  }

  /** `getReadabilityLabel`: the first threshold the score reaches. Each
      band is the interval from its floor up to the floor of the next easier
      band; the hardest takes every score below 30. */
  function BandOf(score: int): (b: Band)
    ensures b == VeryDifficult || Floor(b) <= score
    ensures b == VeryEasy || score < Floor(Easier(b))
  {
    if score >= 90 then VeryEasy
    else if score >= 80 then Easy
    else if score >= 70 then FairlyEasy
    else if score >= 60 then Standard
    else if score >= 50 then FairlyDifficult
    else if score >= 30 then Difficult
    else VeryDifficult
  }

  /** The label the panel shows for each band. */
  function Label(b: Band): string {
    match b
    case VeryEasy => "Very Easy"
    case Easy => "Easy"
    case FairlyEasy => "Fairly Easy"
    case Standard => "Standard"
    case FairlyDifficult => "Fairly Difficult"
    case Difficult => "Difficult"
    case VeryDifficult => "Very Difficult"
  }

  /** The text colour class the panel uses for each band. */
  function Color(b: Band): string {
    match b
    case VeryEasy => "text-green-600"
    case Easy => "text-green-500"
    case FairlyEasy => "text-yellow-600"
    case Standard => "text-yellow-500"
    case FairlyDifficult => "text-orange-500"
    case Difficult => "text-red-500"
    case VeryDifficult => "text-red-600"
  }

  /** No two bands share a label, and no two share a colour: the label and
      the colour each tell the band. */
  lemma LabelsTellBands(a: Band, b: Band)
    ensures Label(a) == Label(b) <==> a == b
    ensures Color(a) == Color(b) <==> a == b
  {
  }

  /** What `getReadabilityLabel` returns: the label (here `caption`, as
      `label` is a Dafny keyword) and a colour class. */
  datatype ReadabilityInfo = ReadabilityInfo(caption: string, color: string)

  /** `getReadabilityLabel(score)`, stated score interval by score interval
      with the strings the panel shows. */
  function ReadabilityLabel(score: int): (info: ReadabilityInfo)
    ensures info.caption == "Very Easy" <==> 90 <= score
    ensures info.caption == "Easy" <==> 80 <= score < 90
    ensures info.caption == "Fairly Easy" <==> 70 <= score < 80
    ensures info.caption == "Standard" <==> 60 <= score < 70
    ensures info.caption == "Fairly Difficult" <==> 50 <= score < 60
    ensures info.caption == "Difficult" <==> 30 <= score < 50
    ensures info.caption == "Very Difficult" <==> score < 30
    ensures info.color == "text-green-600" <==> 90 <= score
    ensures info.color == "text-green-500" <==> 80 <= score < 90
    ensures info.color == "text-yellow-600" <==> 70 <= score < 80
    ensures info.color == "text-yellow-500" <==> 60 <= score < 70
    ensures info.color == "text-orange-500" <==> 50 <= score < 60
    ensures info.color == "text-red-500" <==> 30 <= score < 50
    ensures info.color == "text-red-600" <==> score < 30
  {
    var b := BandOf(score);
    LabelsTellBands(b, b);
    ReadabilityInfo(Label(b), Color(b))
  }

  /** 0 for the easiest band up to 6 for the hardest. */
  function Rank(b: Band): nat {
    match b
    case VeryEasy => 0
    case Easy => 1
    case FairlyEasy => 2
    case Standard => 3
    case FairlyDifficult => 4
    case Difficult => 5
    case VeryDifficult => 6
  }

  /** The lowest score in each band. */
  function Floor(b: Band): int {
    match b
    case VeryEasy => 90
    case Easy => 80
    case FairlyEasy => 70
    case Standard => 60
    case FairlyDifficult => 50
    case Difficult => 30
    case VeryDifficult => -1
  }

  /** A higher score never lands in a harder band. */
  lemma BandMonotone(a: int, b: int)
    requires a <= b
    ensures Rank(BandOf(b)) <= Rank(BandOf(a))
  {
  }


  /* ---------- what the counts mean ---------- */

  /** Each word is a non-empty piece of the text with no whitespace in it,
      and every non-whitespace character of the text is in some word. */
  lemma WordsArePieces(text: string)
    ensures forall w :: w in Words(text) ==> w != [] && Occurs(text, w)
    ensures forall w, c :: w in Words(text) && c in w ==> !IsWhitespace(c)
    ensures forall i :: 0 <= i < |text| && !IsWhitespace(text[i]) ==>
      exists w :: w in Words(text) && text[i] in w
  {
    var t := Trim(text);
    var pieces := Split.Split(t, Spaces);
    FragmentsOccur(t, Spaces);
    FragmentsAvoidSeparators(t, Spaces);
    var a: nat :| a <= |text| && OccursAt(text, t, a);
    forall w | w in Words(text)
      ensures w != [] && Occurs(text, w)
    {
      var b: nat :| b <= |t| && OccursAt(t, w, b);
      OccursTransitive(text, t, w, a, b);
    }
    forall i | 0 <= i < |text| && !IsWhitespace(text[i])
      ensures exists w :: w in Words(text) && text[i] in w
    {
      var j :| 0 <= j < |t| && t[j] == text[i];
      FragmentsCover(t, Spaces, j);
      var w :| w in pieces && t[j] in w;
      assert w != [];
      assert w in Words(text);
    }
  }

  /** The words of a text that is not blank are all the pieces of the
      trimmed text, none dropped; put back together with the whitespace runs
      between them they give the trimmed text again. */
  lemma WordsRebuildTrimmed(text: string)
    requires !AllWhitespace(text)
    ensures Words(text) == Split.Split(Trim(text), Spaces)
    ensures |Separators(Trim(text), Spaces)| == |Words(text)| - 1
    ensures SeparatorRuns(Separators(Trim(text), Spaces), Spaces)
    ensures Join(Words(text), Separators(Trim(text), Spaces)) == Trim(text)
  {
    var t := Trim(text);
    TrimmedSplitHasNoEmpty(t);
    NonEmptyKeepsAll(Split.Split(t, Spaces));
    SplitRebuilds(t, Spaces);
    SeparatorsAreRuns(t, Spaces);
  }

  /** The word count is zero exactly for a text of whitespace only. */
  lemma NoWordsIffBlank(text: string)
    ensures |Words(text)| == 0 <==> AllWhitespace(text)
  {
    WordsArePieces(text);
    if !AllWhitespace(text) {
      var i :| 0 <= i < |text| && !IsWhitespace(text[i]);
      var w :| w in Words(text) && text[i] in w;
    } else {
      assert Trim(text) == [];
      assert Split.Split([], Spaces) == [[]];
      assert NonEmpty([[]]) == [];
    }
  }

  lemma HeadIsMember<T>(xs: seq<T>)
    ensures |xs| > 0 ==> xs[0] in xs
  {
  }

  /** The sentence count is zero exactly when the text holds nothing but
      whitespace and `.`, `!`, `?`. */
  lemma NoSentencesIffOnlyPunctuation(text: string)
    ensures |Sentences(text)| == 0 <==>
      forall i :: 0 <= i < |text| ==> IsWhitespace(text[i]) || IsTerminator(text[i])
  {
    var pieces := Split.Split(text, SentenceEnds);
    FragmentCharsFromInput(text, SentenceEnds);
    FragmentsAvoidSeparators(text, SentenceEnds);
    if forall i :: 0 <= i < |text| ==> IsWhitespace(text[i]) || IsTerminator(text[i]) {
      forall f | f in pieces
        ensures AllWhitespace(f)
      {
        forall k | 0 <= k < |f|
          ensures IsWhitespace(f[k])
        {
          assert f[k] in f;
          var i :| 0 <= i < |text| && text[i] == f[k];
        }
      }
      HeadIsMember(Sentences(text));
    } else {
      var i :| 0 <= i < |text| && !IsWhitespace(text[i]) && !IsTerminator(text[i]);
      FragmentsCover(text, SentenceEnds, i);
      var f :| f in pieces && text[i] in f;
      assert f in Sentences(text);
    }
  }

  /** The paragraph count is zero exactly for a text of whitespace only. */
  lemma NoParagraphsIffBlank(text: string)
    ensures |Paragraphs(text)| == 0 <==> AllWhitespace(text)
  {
    var pieces := Split.Split(text, BlankLines);
    FragmentCharsFromInput(text, BlankLines);
    if AllWhitespace(text) {
      forall f | f in pieces
        ensures AllWhitespace(f)
      {
        forall k | 0 <= k < |f|
          ensures IsWhitespace(f[k])
        {
          assert f[k] in f;
          var i :| 0 <= i < |text| && text[i] == f[k];
        }
      }
      HeadIsMember(Paragraphs(text));
    } else {
      var i :| 0 <= i < |text| && !IsWhitespace(text[i]);
      FragmentsCover(text, BlankLines, i);
      var f :| f in pieces && text[i] in f;
      assert f in Paragraphs(text);
    }
  }

  /** The counts agree on emptiness: no words exactly when no paragraphs,
      and a sentence only when there are words. */
  lemma CountsAgree(text: string)
    ensures ComputeStats(text).wordCount == 0 <==> ComputeStats(text).paragraphCount == 0
    ensures ComputeStats(text).sentenceCount > 0 ==> ComputeStats(text).wordCount > 0
    ensures ComputeStats(text).readingTime == 0 <==> ComputeStats(text).wordCount == 0
  {
    NoWordsIffBlank(text);
    NoParagraphsIffBlank(text);
    NoSentencesIffOnlyPunctuation(text);
  }

  /** The characters without spaces are the characters minus the
      whitespace ones. */
  lemma NoSpacesCount(text: string)
    ensures ComputeStats(text).characterCountNoSpaces + WhitespaceCount(text) == ComputeStats(text).characterCount
  {
    WithoutWhitespaceCount(text);
  }

  /** A blank text, the empty one included, shows no words, sentences or
      paragraphs, a zero average and reading time, and the full score of
      100 ("Very Easy"). */
  lemma BlankTextStats(text: string)
    requires AllWhitespace(text)
    ensures var st := ComputeStats(text);
      st.wordCount == 0 && st.sentenceCount == 0 && st.paragraphCount == 0
      && st.averageWordsPerSentence == 0.0 && st.readingTime == 0
      && st.readabilityScore == 100 && ReadabilityLabel(st.readabilityScore).caption == "Very Easy"
  {
    NoWordsIffBlank(text);
    NoParagraphsIffBlank(text);
    NoSentencesIffOnlyPunctuation(text);
  }
}
