/** The editor page's handling of suggestions: applying one rewrites the
    first occurrence of its text, dismissing one drops it by id, the three
    tabs filter by category, and a blank text is never analyzed. Timers,
    the progress bar and rendering are left out. */
module Editor {
  import opened Wrappers
  import opened Text
  import opened Split
  import opened Writing
  import Analyzer

  /** The page state the handlers change. */
  datatype EditorState = EditorState(text: string, suggestions: seq<Suggestion>)

  /** `prev.filter(s => s.id !== id)`. */
  function Dismiss(list: seq<Suggestion>, id: string): seq<Suggestion> {
    if list == [] then []
    else (if list[0].id == id then [] else [list[0]]) + Dismiss(list[1..], id)
  }

  /** Dismissing keeps exactly the suggestions with another id. */
  lemma {:induction false} DismissKeeps(list: seq<Suggestion>, id: string)
    ensures |Dismiss(list, id)| <= |list|
    ensures forall s :: s in Dismiss(list, id) <==> s in list && s.id != id
  {
    if list != [] {
      DismissKeeps(list[1..], id);
      assert list == [list[0]] + list[1..];
    }
  }

  /** How many suggestions carry `id`. */
  function CountId(list: seq<Suggestion>, id: string): nat {
    if list == [] then 0
    else (if list[0].id == id then 1 else 0) + CountId(list[1..], id)
  }

  /** Dismissing removes exactly the suggestions with that id, and keeps
      the others in their order. */
  lemma {:induction false} DismissRemovesCount(list: seq<Suggestion>, id: string)
    ensures |Dismiss(list, id)| + CountId(list, id) == |list|
  {
    if list != [] {
      DismissRemovesCount(list[1..], id);
    }
  }

  /** Dismissing keeps the order of what remains: it distributes over
      concatenation. */
  lemma {:induction false} DismissAppend(xs: seq<Suggestion>, ys: seq<Suggestion>, id: string)
    ensures Dismiss(xs + ys, id) == Dismiss(xs, id) + Dismiss(ys, id)
  {
    if xs == [] {
      assert xs + ys == ys;
    } else {
      assert (xs + ys)[0] == xs[0] && (xs + ys)[1..] == xs[1..] + ys;
      DismissAppend(xs[1..], ys, id);
    }
  }

  /** Dismissing an id nobody has changes nothing; dismissing twice is
      dismissing once. */
  lemma {:induction false} DismissAbsent(list: seq<Suggestion>, id: string)
    requires forall s :: s in list ==> s.id != id
    ensures Dismiss(list, id) == list
  {
    if list != [] {
      assert list[0] in list;
      assert forall s :: s in list[1..] ==> s in list;
      DismissAbsent(list[1..], id);
    }
  }

  lemma DismissIdempotent(list: seq<Suggestion>, id: string)
    ensures Dismiss(Dismiss(list, id), id) == Dismiss(list, id)
  {
    DismissKeeps(list, id);
    DismissAbsent(Dismiss(list, id), id);
  }

  /** `suggestion.replacement` is truthy: present and not empty. */
  predicate Applicable(s: Suggestion) {
    s.replacement.Some? && s.replacement.value != ""
  }

  /** `applySuggestion` as written: with a replacement, the first
      occurrence of the original text is rewritten, wherever the suggestion
      pointed, and the suggestion is dropped, even when the text no longer
      contains it; without one nothing changes. */
  function ApplyAsWritten(st: EditorState, s: Suggestion): (r: EditorState)
    ensures !Applicable(s) ==> r == st
    ensures Applicable(s) ==> r.suggestions == Dismiss(st.suggestions, s.id)
    ensures Applicable(s) && !Contains(st.text, s.originalText) ==> r.text == st.text
    ensures Applicable(s) && Contains(st.text, s.originalText) ==>
      var at := IndexOf(st.text, s.originalText);
      r.text == st.text[..at] + s.replacement.value + st.text[at + |s.originalText|..]
  {
    if Applicable(s) then
      EditorState(ReplaceFirst(st.text, s.originalText, s.replacement.value), Dismiss(st.suggestions, s.id))
    else st
  }

  /** The suggestion's span still holds its original text. */
  predicate PointsAtOriginal(text: string, s: Suggestion) {
    0 <= s.startIndex <= s.endIndex <= |text| && text[s.startIndex..s.endIndex] == s.originalText
  }

  /** Applying a suggestion, rewriting the span it points at: while that
      span still holds the original text it is the span rewritten;
      otherwise, as the page does, the first occurrence is. */
  function Apply(st: EditorState, s: Suggestion): (r: EditorState)
    ensures !Applicable(s) ==> r == st
    ensures Applicable(s) ==> r.suggestions == Dismiss(st.suggestions, s.id)
    ensures Applicable(s) && PointsAtOriginal(st.text, s) ==>
      r.text == st.text[..s.startIndex] + s.replacement.value + st.text[s.endIndex..]
    ensures Applicable(s) && !PointsAtOriginal(st.text, s) ==> r == ApplyAsWritten(st, s)
  {
    if !Applicable(s) then st
    else if PointsAtOriginal(st.text, s) then
      EditorState(st.text[..s.startIndex] + s.replacement.value + st.text[s.endIndex..],
        Dismiss(st.suggestions, s.id))
    else ApplyAsWritten(st, s)
  }

  /** Where the span a suggestion points at is the first copy of its text,
      both versions rewrite the same thing. */
  lemma ApplyAgreesOnFirstCopy(st: EditorState, s: Suggestion)
    requires PointsAtOriginal(st.text, s)
    requires forall j: nat :: j < s.startIndex ==> !OccursAt(st.text, s.originalText, j)
    ensures Apply(st, s) == ApplyAsWritten(st, s)
  {
    if Applicable(s) {
      assert OccursAt(st.text, s.originalText, s.startIndex);
      assert IndexOf(st.text, s.originalText) == s.startIndex;
    }
  }

  /** The text with `a lot of` twice, and the suggestion for the second
      match of the `a lot of` row. */
  const TwiceText: string := "a lot of" + AfterFirst
  const AfterFirst: string := " x, a lot of y"
  const SecondMatch: Suggestion :=
    Suggestion("5-1", Style, Warning, "a lot of", Some("many"),
      "Consider using \"many\", \"much\", or \"numerous\"", 12, 20)

  /** Applying the second `a lot of` suggestion rewrites the first copy. */
  lemma ApplyAsWrittenRewritesFirstCopy()
    ensures ApplyAsWritten(EditorState(TwiceText, [SecondMatch]), SecondMatch).text == "many" + AfterFirst
  {
    assert TwiceText == [] + "a lot of" + AfterFirst;
    ApplyAsWrittenAtFirst(EditorState(TwiceText, [SecondMatch]), SecondMatch, [], AfterFirst);
  }

  /** When the text is `pre`, the original text, `post`, and the original
      text does not occur earlier, the page rewrites it there. */
  lemma ApplyAsWrittenAtFirst(st: EditorState, s: Suggestion, pre: string, post: string)
    requires Applicable(s) && st.text == pre + s.originalText + post
    requires forall k: nat :: k < |pre| ==> !OccursAt(st.text, s.originalText, k)
    ensures ApplyAsWritten(st, s).text == pre + s.replacement.value + post
  {
    var j := |pre|;
    assert OccursAt(st.text, s.originalText, j);
    assert IndexOf(st.text, s.originalText) == j;
    assert st.text[..j] == pre && st.text[j + |s.originalText|..] == post;
  }

  /** Applying it at the span it points at rewrites the second copy. */
  lemma ApplyRewritesPointedCopy()
    ensures Apply(EditorState(TwiceText, [SecondMatch]), SecondMatch).text == "a lot of x, many y"
  {
    assert TwiceText[12..20] == "a lot of";
    assert TwiceText[..12] == "a lot of x, ";
    assert TwiceText[20..] == " y";
  }

  /** `dismissSuggestion`: the text stays, the suggestion goes. */
  function DismissSuggestion(st: EditorState, id: string): (r: EditorState)
    ensures r.text == st.text
    ensures forall s :: s in r.suggestions <==> s in st.suggestions && s.id != id
  {
    DismissKeeps(st.suggestions, id);
    EditorState(st.text, Dismiss(st.suggestions, id))
  }

  /** The tab for one category. */
  function ByCategory(list: seq<Suggestion>, c: Category): (r: seq<Suggestion>)
    ensures forall s :: s in r <==> s in list && s.category == c
  {
    if list == [] then []
    else (if list[0].category == c then [list[0]] else []) + ByCategory(list[1..], c)
  }

  /** The three tabs split the list: every suggestion is in exactly one. */
  lemma {:induction false} TabsPartition(list: seq<Suggestion>)
    ensures |ByCategory(list, Grammar)| + |ByCategory(list, Style)| + |ByCategory(list, Clarity)| == |list|
  {
    if list != [] {
      TabsPartition(list[1..]);
    }
  }

  /** `analyzeWriting`: a blank text is not analyzed; otherwise the
      suggestions become the analyzer's. */
  function AnalyzeWriting(st: EditorState): (r: EditorState)
    ensures r.text == st.text
    ensures AllWhitespace(st.text) ==> r == st
    ensures !AllWhitespace(st.text) ==> r.suggestions == Analyzer.Analyze(st.text)
  {
    if Trim(st.text) == [] then st else EditorState(st.text, Analyzer.Analyze(st.text))
  }

  /** The effect that runs on every edit: a blank text clears the list at
      once; otherwise the list stays until the delayed analysis replaces it. */
  function OnTextChange(st: EditorState, text: string): (r: EditorState)
    ensures r.text == text
    ensures AllWhitespace(text) ==> r.suggestions == []
    ensures !AllWhitespace(text) ==> r.suggestions == st.suggestions
  {
    if Trim(text) == [] then EditorState(text, []) else EditorState(text, st.suggestions)
  }

  /** After an analysis, every listed id is unique, so dismissing one
      suggestion removes exactly that one. */
  lemma DismissAfterAnalysis(st: EditorState, k: nat)
    requires !AllWhitespace(st.text)
    requires k < |AnalyzeWriting(st).suggestions|
    ensures var list := AnalyzeWriting(st).suggestions;
      |DismissSuggestion(AnalyzeWriting(st), list[k].id).suggestions| == |list| - 1
  {
    var list := AnalyzeWriting(st).suggestions;
    Analyzer.AnalyzeIds(st.text);
    OnlyOneWithId(list, k);
    DismissRemovesCount(list, list[k].id);
  }

  /** In a list of distinct ids, each id is carried once. */
  lemma {:induction false} OnlyOneWithId(list: seq<Suggestion>, k: nat)
    requires k < |list|
    requires forall a, b :: 0 <= a < b < |list| ==> list[a].id != list[b].id
    ensures CountId(list, list[k].id) == 1
  {
    var id := list[k].id;
    if k == 0 {
      assert forall s :: s in list[1..] ==> s.id != id by {
        forall s | s in list[1..] ensures s.id != id {
          var j :| 0 <= j < |list[1..]| && list[1..][j] == s;
          assert list[j + 1] == s;
        }
      }
      NoneWithId(list[1..], id);
    } else {
      assert list[1..][k - 1] == list[k];
      OnlyOneWithId(list[1..], k - 1);
    }
  }

  lemma {:induction false} NoneWithId(list: seq<Suggestion>, id: string)
    requires forall s :: s in list ==> s.id != id
    ensures CountId(list, id) == 0
  {
    if list != [] {
      assert list[0] in list;
      assert forall s :: s in list[1..] ==> s in list;
      NoneWithId(list[1..], id);
    }
  }
}
