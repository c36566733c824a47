/** `String.prototype.split` for the three separators the writing assistant
    uses: runs of sentence terminators `/[.!?]+/`, runs of whitespace `/\s+/`
    and blank lines `/\n\s*\n/`. Every fragment between two separator matches
    is kept, empty ones included, as JavaScript does. */
module Split {
  import opened Text

  datatype Separator = SentenceEnds | Spaces | BlankLines

  /** The characters a separator match is made of. */
  predicate InSeparatorClass(c: char, sep: Separator) {
    if sep == SentenceEnds then IsTerminator(c) else IsWhitespace(c)
  }

  /** End of the maximal run of separator-class characters from `k`. */
  function RunEnd(s: string, k: nat, sep: Separator): (e: nat)
    requires k <= |s|
    ensures k <= e <= |s|
    ensures forall j :: k <= j < e ==> InSeparatorClass(s[j], sep)
    ensures e < |s| ==> !InSeparatorClass(s[e], sep)
    decreases |s| - k
  {
    if k < |s| && InSeparatorClass(s[k], sep) then RunEnd(s, k + 1, sep) else k
  }

  /** A run known to stop at `g` is the run `RunEnd` finds. */
  lemma {:induction false} RunEndIs(s: string, k: nat, g: nat, sep: Separator)
    requires k <= g <= |s|
    requires forall j :: k <= j < g ==> InSeparatorClass(s[j], sep)
    requires g < |s| ==> !InSeparatorClass(s[g], sep)
    ensures RunEnd(s, k, sep) == g
    decreases g - k
  {
    if k < g {
      RunEndIs(s, k + 1, g, sep);
    }
  }

  /** One past the last line feed in `s[lo..hi]`, or `lo` when there is none. */
  function LastNewlineEnd(s: string, lo: nat, hi: nat): (e: nat)
    requires lo <= hi <= |s|
    ensures lo <= e <= hi
    ensures e > lo ==> s[e - 1] == '\n'
    ensures forall j :: e <= j < hi ==> s[j] != '\n'
    decreases hi - lo
  {
    if hi == lo then lo
    else if s[hi - 1] == '\n' then hi
    else LastNewlineEnd(s, lo, hi - 1)
  }

  /** End of the separator match starting at `k`, or `k` itself when none
      starts there. For `/\n\s*\n/` the greedy `\s*` takes the whole
      whitespace run and gives back characters up to its last line feed. */
  function SeparatorEnd(s: string, k: nat, sep: Separator): (e: nat)
    requires k <= |s|
    ensures k <= e <= |s|
    ensures forall j :: k <= j < e ==> InSeparatorClass(s[j], sep)
    ensures sep != BlankLines ==> (e > k <==> k < |s| && InSeparatorClass(s[k], sep))
  {
    match sep
    case BlankLines =>
      if k < |s| && s[k] == '\n' then
        var last := LastNewlineEnd(s, k + 1, RunEnd(s, k + 1, sep));
        if last > k + 1 then last else k
      else k
    case _ => RunEnd(s, k, sep)
  }

  /** A match is as long as it can be: a terminator or whitespace run is
      cut out whole, and a blank-line match runs from a line feed to a line
      feed. */
  lemma SeparatorEndMaximal(s: string, k: nat, sep: Separator)
    requires k <= |s|
    ensures var e := SeparatorEnd(s, k, sep);
      (sep != BlankLines && e < |s| ==> !InSeparatorClass(s[e], sep))
      && (sep == BlankLines && e > k ==> k + 2 <= e && s[k] == '\n' && s[e - 1] == '\n')
  {
  }

  /** Past `b`, whatever lies between `a` and `b` in the separator class. */
  lemma RunEndPast(s: string, a: nat, b: nat, sep: Separator)
    requires a <= b < |s| && forall m :: a <= m <= b ==> InSeparatorClass(s[m], sep)
    ensures RunEnd(s, a, sep) > b
  {
  }

  /** The leftmost position at or after `from` where a separator match
      starts, or `|s|` when there is none. */
  function FirstSeparator(s: string, from: nat, sep: Separator): (k: nat)
    requires from <= |s|
    ensures from <= k <= |s|
    ensures k < |s| ==> SeparatorEnd(s, k, sep) > k
    ensures forall j :: from <= j < k ==> SeparatorEnd(s, j, sep) == j
    decreases |s| - from
  {
    if from == |s| then from
    else if SeparatorEnd(s, from, sep) > from then from
    else FirstSeparator(s, from + 1, sep)
  }

  /** `s.split(sep)`. */
  function Split(s: string, sep: Separator): (r: seq<string>)
    ensures |r| >= 1
    decreases |s|
  {
    var k := FirstSeparator(s, 0, sep);
    if k == |s| then [s]
    else [s[..k]] + Split(s[SeparatorEnd(s, k, sep)..], sep)
  }

  /** The separator matches `s.split(sep)` cuts out, in order. */
  function Separators(s: string, sep: Separator): seq<string>
    decreases |s|
  {
    var k := FirstSeparator(s, 0, sep);
    if k == |s| then []
    else
      var e := SeparatorEnd(s, k, sep);
      [s[k..e]] + Separators(s[e..], sep)
  }

  /** Each separator match is a non-empty run of separator-class characters. */
  predicate SeparatorRuns(seps: seq<string>, sep: Separator) {
    forall i :: 0 <= i < |seps| ==>
      |seps[i]| > 0 && forall j :: 0 <= j < |seps[i]| ==> InSeparatorClass(seps[i][j], sep)
  }

  /** One separator match fewer than fragments. */
  lemma {:induction false} SeparatorsCount(s: string, sep: Separator)
    ensures |Separators(s, sep)| == |Split(s, sep)| - 1
    decreases |s|
  {
    var k := FirstSeparator(s, 0, sep);
    if k < |s| {
      SeparatorsCount(s[SeparatorEnd(s, k, sep)..], sep);
    }
  }

  /** Each separator match is a non-empty run of separator-class characters. */
  lemma {:induction false} SeparatorsAreRuns(s: string, sep: Separator)
    ensures SeparatorRuns(Separators(s, sep), sep)
    decreases |s|
  {
    var k := FirstSeparator(s, 0, sep);
    if k < |s| {
      var e := SeparatorEnd(s, k, sep);
      SeparatorsAreRuns(s[e..], sep);
      assert Separators(s, sep) == [s[k..e]] + Separators(s[e..], sep);
      assert |s[k..e]| > 0;
      assert forall j :: 0 <= j < |s[k..e]| ==> InSeparatorClass(s[k..e][j], sep);
    }
  }

  /** Every fragment is a piece of the input. */
  lemma {:induction false} FragmentsOccur(s: string, sep: Separator)
    ensures forall f :: f in Split(s, sep) ==> Occurs(s, f)
    decreases |s|
  {
    var k := FirstSeparator(s, 0, sep);
    if k == |s| {
      assert OccursAt(s, s, 0);
    } else {
      var e := SeparatorEnd(s, k, sep);
      var rest := s[e..];
      assert OccursAt(s, s[..k], 0);
      assert OccursAt(s, rest, e);
      FragmentsOccur(rest, sep);
      forall f | f in Split(rest, sep) ensures Occurs(s, f) {
        var j: nat :| j <= |rest| && OccursAt(rest, f, j);
        OccursTransitive(s, rest, f, e, j);
      }
    }
  }

  /** A character outside the separator class is never swallowed by a
      separator: it lands in some fragment. */
  lemma {:induction false} FragmentsCover(s: string, sep: Separator, i: nat)
    requires i < |s| && !InSeparatorClass(s[i], sep)
    ensures exists f :: f in Split(s, sep) && s[i] in f
    decreases |s|
  {
    var k := FirstSeparator(s, 0, sep);
    if k == |s| {
      assert s[i] in s;
    } else if i < k {
      assert s[..k] in Split(s, sep);
      assert s[i] == s[..k][i];
    } else {
      var e := SeparatorEnd(s, k, sep);
      assert i >= e;
      var rest := s[e..];
      assert rest[i - e] == s[i];
      FragmentsCover(rest, sep, i - e);
    }
  }

  /** Terminator and whitespace runs are maximal, so no fragment of those
      splits holds a separator-class character. */
  lemma {:induction false} FragmentsAvoidSeparators(s: string, sep: Separator)
    requires sep != BlankLines
    ensures forall f, c :: f in Split(s, sep) && c in f ==> !InSeparatorClass(c, sep)
    decreases |s|
  {
    var k := FirstSeparator(s, 0, sep);
    var head := if k == |s| then s else s[..k];
    forall c | c in head ensures !InSeparatorClass(c, sep) {
      var j :| 0 <= j < |head| && head[j] == c;
      assert SeparatorEnd(s, j, sep) == j;
    }
    if k < |s| {
      FragmentsAvoidSeparators(s[SeparatorEnd(s, k, sep)..], sep);
    }
  }

  /** Characters of a fragment are characters of the input. */
  lemma FragmentCharsFromInput(s: string, sep: Separator)
    ensures forall f, c :: f in Split(s, sep) && c in f ==> c in s
  {
    FragmentsOccur(s, sep);
    forall f, c | f in Split(s, sep) && c in f ensures c in s {
      var k: nat :| k <= |s| && OccursAt(s, f, k);
      var j :| 0 <= j < |f| && f[j] == c;
      assert s[k + j] == c;
    }
  }

  /** Fragments that are not whitespace only. */
  function NonBlank(fs: seq<string>): (r: seq<string>)
    ensures |r| <= |fs|
    ensures forall f :: f in r <==> f in fs && !AllWhitespace(f)
  {
    if fs == [] then []
    else (if AllWhitespace(fs[0]) then [] else [fs[0]]) + NonBlank(fs[1..])
  }

  /** How many fragments are whitespace only. */
  function BlankCount(fs: seq<string>): nat {
    if fs == [] then 0 else (if AllWhitespace(fs[0]) then 1 else 0) + BlankCount(fs[1..])
  }

  /** The filter keeps the order: it distributes over concatenation. */
  lemma {:induction false} NonBlankAppend(xs: seq<string>, ys: seq<string>)
    ensures NonBlank(xs + ys) == NonBlank(xs) + NonBlank(ys)
  {
    if xs == [] {
      assert xs + ys == ys;
    } else {
      var head := if AllWhitespace(xs[0]) then [] else [xs[0]];
      assert (xs + ys)[0] == xs[0] && (xs + ys)[1..] == xs[1..] + ys;
      assert NonBlank(xs + ys) == head + NonBlank(xs[1..] + ys);
      NonBlankAppend(xs[1..], ys);
      assert head + (NonBlank(xs[1..]) + NonBlank(ys)) == (head + NonBlank(xs[1..])) + NonBlank(ys);
    }
  }

  /** The filter drops exactly the blank fragments, each copy once. */
  lemma {:induction false} NonBlankCount(fs: seq<string>)
    ensures |NonBlank(fs)| + BlankCount(fs) == |fs|
  {
    if fs != [] {
      NonBlankCount(fs[1..]);
    }
  }

  /** Fragments that are not empty. */
  function NonEmpty(fs: seq<string>): (r: seq<string>)
    ensures |r| <= |fs|
    ensures forall f :: f in r <==> f in fs && f != []
  {
    if fs == [] then []
    else (if fs[0] == [] then [] else [fs[0]]) + NonEmpty(fs[1..])
  }

  /** How many fragments are empty. */
  function EmptyCount(fs: seq<string>): nat {
    if fs == [] then 0 else (if fs[0] == [] then 1 else 0) + EmptyCount(fs[1..])
  }

  /** The filter keeps the order: it distributes over concatenation. */
  lemma {:induction false} NonEmptyAppend(xs: seq<string>, ys: seq<string>)
    ensures NonEmpty(xs + ys) == NonEmpty(xs) + NonEmpty(ys)
  {
    if xs == [] {
      assert xs + ys == ys;
    } else {
      var head := if xs[0] == [] then [] else [xs[0]];
      assert (xs + ys)[0] == xs[0] && (xs + ys)[1..] == xs[1..] + ys;
      assert NonEmpty(xs + ys) == head + NonEmpty(xs[1..] + ys);
      NonEmptyAppend(xs[1..], ys);
      assert head + (NonEmpty(xs[1..]) + NonEmpty(ys)) == (head + NonEmpty(xs[1..])) + NonEmpty(ys);
    }
  }

  /** The filter drops exactly the empty fragments, each copy once. */
  lemma {:induction false} NonEmptyCount(fs: seq<string>)
    ensures |NonEmpty(fs)| + EmptyCount(fs) == |fs|
  {
    if fs != [] {
      NonEmptyCount(fs[1..]);
    }
  }

  /** Without empty fragments the filter keeps them all. */
  lemma {:induction false} NonEmptyKeepsAll(fs: seq<string>)
    requires forall i :: 0 <= i < |fs| ==> fs[i] != []
    ensures NonEmpty(fs) == fs
  {
    if fs != [] {
      assert forall i :: 0 <= i < |fs[1..]| ==> fs[1..][i] == fs[i + 1];
      NonEmptyKeepsAll(fs[1..]);
    }
  }

  /** Splitting a text that begins and ends with non-whitespace at its
      whitespace runs gives no empty fragment. */
  lemma {:induction false} TrimmedSplitHasNoEmpty(s: string)
    requires s != [] && !IsWhitespace(s[0]) && !IsWhitespace(s[|s| - 1])
    ensures forall i :: 0 <= i < |Split(s, Spaces)| ==> Split(s, Spaces)[i] != []
    decreases |s|
  {
    var k := FirstSeparator(s, 0, Spaces);
    assert SeparatorEnd(s, 0, Spaces) == 0;
    if k < |s| {
      var e := SeparatorEnd(s, k, Spaces);
      assert e < |s|;
      var rest := s[e..];
      assert rest[|rest| - 1] == s[|s| - 1];
      TrimmedSplitHasNoEmpty(rest);
      assert Split(s, Spaces)[1..] == Split(rest, Spaces);
    }
  }

  /* ---------- the separator matches are leftmost and longest ---------- */

  /** Splitting on terminator or whitespace runs gives an empty fragment
      only at the ends: each run is cut out whole, so two runs never touch. */
  lemma {:induction false} InnerFragmentsNonEmpty(s: string, sep: Separator)
    requires sep != BlankLines
    ensures forall i :: 0 < i < |Split(s, sep)| - 1 ==> Split(s, sep)[i] != []
    decreases |s|
  {
    var k := FirstSeparator(s, 0, sep);
    if k < |s| {
      var e := SeparatorEnd(s, k, sep);
      var rest := s[e..];
      InnerFragmentsNonEmpty(rest, sep);
      var fs := Split(s, sep);
      assert fs == [s[..k]] + Split(rest, sep);
      SeparatorEndMaximal(s, k, sep);
      if FirstSeparator(rest, 0, sep) < |rest| {
        assert rest[0] == s[e];
        assert SeparatorEnd(rest, 0, sep) == 0;
      }
    }
  }

  /** A blank line from `i` to `j`: two line feeds with only whitespace
      between them, which is what `/\n\s*\n/` matches. */
  predicate BlankLineAt(f: string, i: nat, j: nat) {
    i < j < |f| && f[i] == '\n' && f[j] == '\n' && forall m :: i < m < j ==> IsWhitespace(f[m])
  }

  /** Where a blank line starts, a separator match starts and reaches past
      its second line feed. */
  lemma BlankLineMatches(s: string, i: nat, j: nat)
    ensures BlankLineAt(s, i, j) ==> SeparatorEnd(s, i, BlankLines) > j
  {
    if BlankLineAt(s, i, j) {
      var run := RunEnd(s, i + 1, BlankLines);
      assert IsWhitespace(s[j]);
      assert run > j;
    }
  }

  /** `f` ends in a line feed followed by whitespace only. */
  predicate EndsWithNewlineRun(f: string) {
    exists j :: 0 <= j < |f| && f[j] == '\n' && AllWhitespace(f[j + 1..])
  }

  /** `f` starts with whitespace only up to a line feed. */
  predicate StartsWithNewlineRun(f: string) {
    exists j :: 0 <= j < |f| && f[j] == '\n' && AllWhitespace(f[..j])
  }

  /** A blank line is never before the first match. */
  lemma NoBlankLineBeforeFirst(s: string, p: nat, q: nat)
    ensures BlankLineAt(s, p, q) ==> FirstSeparator(s, 0, BlankLines) <= p
  {
    BlankLineMatches(s, p, q);
  }

  /** The text right after a blank-line match does not start with
      whitespace up to a line feed: the greedy `\s*` gave back only what
      follows the last one. */
  lemma GreedyBlankLine(s: string, k: nat)
    requires k <= |s| && SeparatorEnd(s, k, BlankLines) > k
    ensures !StartsWithNewlineRun(s[SeparatorEnd(s, k, BlankLines)..])
  {
    var e := SeparatorEnd(s, k, BlankLines);
    var rest := s[e..];
    var run := RunEnd(s, k + 1, BlankLines);
    assert e <= run;
    forall j: nat | j < |rest|
      ensures !(rest[j] == '\n' && AllWhitespace(rest[..j]))
    {
      if AllWhitespace(rest[..j]) && IsWhitespace(rest[j]) {
        forall m | k + 1 <= m <= e + j
          ensures IsWhitespace(s[m])
        {
          if m >= e {
            assert s[m] == rest[m - e];
          }
        }
        RunEndPast(s, k + 1, e + j, BlankLines);
      }
    }
  }

  /** One step of the split: the first fragment, the first match, and the
      split of the text after it. */
  lemma SplitStep(s: string, sep: Separator) returns (k: nat, e: nat)
    requires FirstSeparator(s, 0, sep) < |s|
    ensures k < e <= |s| && s[..k] + s[k..e] + s[e..] == s
    ensures Split(s, sep) == [s[..k]] + Split(s[e..], sep)
    ensures Separators(s, sep) == [s[k..e]] + Separators(s[e..], sep)
  {
    k := FirstSeparator(s, 0, sep);
    e := SeparatorEnd(s, k, sep);
    assert s[..k] + s[k..e] + s[e..] == s;
  }

  /** The first fragment is the text before the first match. */
  lemma FirstFragment(s: string, sep: Separator)
    ensures Split(s, sep)[0] == s[..FirstSeparator(s, 0, sep)]
  {
    assert s[..|s|] == s;
  }
}
