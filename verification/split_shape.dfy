/** What `s.split(sep)` promises beyond its definition: putting the
    separator matches back between the fragments gives back the input, and
    for blank lines the matches are the leftmost and longest ones. */
module SplitShape {
  import opened Text
  import opened Split

  /** The fragments with the separator matches put back between them are
      the input: nothing is lost, moved or duplicated. */
  lemma {:induction false} SplitRebuilds(s: string, sep: Separator)
    ensures |Separators(s, sep)| == |Split.Split(s, sep)| - 1
    ensures Join(Split.Split(s, sep), Separators(s, sep)) == s
    decreases |s|
  {
    SeparatorsCount(s, sep);
    if FirstSeparator(s, 0, sep) < |s| {
      var k, e := SplitStep(s, sep);
      SplitRebuilds(s[e..], sep);
      JoinCons(s[..k], s[k..e], Split.Split(s[e..], sep), Separators(s[e..], sep));
    }
  }

  /** A run from a line feed to another line feed. */
  predicate LineFeedToLineFeed(m: string) {
    |m| >= 2 && m[0] == '\n' && m[|m| - 1] == '\n'
  }

  /** Each blank-line separator match runs from a line feed to a line feed. */
  lemma {:induction false} BlankLineSeparators(s: string)
    ensures forall m :: m in Separators(s, BlankLines) ==> LineFeedToLineFeed(m)
    decreases |s|
  {
    var k := FirstSeparator(s, 0, BlankLines);
    if k < |s| {
      var e := SeparatorEnd(s, k, BlankLines);
      SeparatorEndMaximal(s, k, BlankLines);
      assert LineFeedToLineFeed(s[k..e]);
      BlankLineSeparators(s[e..]);
      assert Separators(s, BlankLines) == [s[k..e]] + Separators(s[e..], BlankLines);
    }
  }

  /** `f` holds no blank line. */
  predicate NoBlankLine(f: string) {
    forall p: nat, q: nat :: p < q < |f| ==> !BlankLineAt(f, p, q)
  }

  /** The text before the first blank-line match holds no blank line: a
      match would have started there. */
  lemma HeadHasNoBlankLine(s: string)
    ensures NoBlankLine(s[..FirstSeparator(s, 0, BlankLines)])
  {
    var head := s[..FirstSeparator(s, 0, BlankLines)];
    forall p: nat, q: nat | p < q < |head|
      ensures !BlankLineAt(head, p, q)
    {
      assert BlankLineAt(head, p, q) == BlankLineAt(s, p, q);
      NoBlankLineBeforeFirst(s, p, q);
    }
  }

  /** The text before a blank-line match does not end in a line feed
      followed by whitespace only: the match would have started at that
      line feed. */
  lemma HeadEndsOutsideMatch(s: string)
    requires FirstSeparator(s, 0, BlankLines) < |s|
    ensures !EndsWithNewlineRun(s[..FirstSeparator(s, 0, BlankLines)])
  {
    var k := FirstSeparator(s, 0, BlankLines);
    var head := s[..k];
    SeparatorEndMaximal(s, k, BlankLines);
    forall j: nat | j < |head|
      ensures !(head[j] == '\n' && AllWhitespace(head[j + 1..]))
    {
      TailRunIsBlankLine(s, j, k);
      NoBlankLineBeforeFirst(s, j, k);
    }
  }

  /** A line feed in `s[..k]` followed by whitespace only, with a line feed
      at `k`, is a blank line of `s`. */
  lemma TailRunIsBlankLine(s: string, j: nat, k: nat)
    requires j < k < |s| && s[k] == '\n'
    ensures s[..k][j] == '\n' && AllWhitespace(s[..k][j + 1..]) ==> BlankLineAt(s, j, k)
  {
    if s[..k][j] == '\n' && AllWhitespace(s[..k][j + 1..]) {
      forall m | j < m < k
        ensures IsWhitespace(s[m])
      {
        assert s[m] == s[..k][j + 1..][m - j - 1];
      }
    }
  }

  /** No blank-line fragment holds a blank line, and none before a match ends
      in a line feed followed by whitespace only: the matches are leftmost. */
  lemma {:induction false} BlankLineFragmentsLeftmost(s: string)
    ensures forall f :: f in Split.Split(s, BlankLines) ==> NoBlankLine(f)
    ensures forall f :: f in Split.Split(s, BlankLines)[..|Split.Split(s, BlankLines)| - 1] ==> !EndsWithNewlineRun(f)
    decreases |s|
  {
    var k := FirstSeparator(s, 0, BlankLines);
    HeadHasNoBlankLine(s);
    if k == |s| {
      assert s[..k] == s;
    } else {
      HeadEndsOutsideMatch(s);
      var e := SeparatorEnd(s, k, BlankLines);
      var rest := s[e..];
      BlankLineFragmentsLeftmost(rest);
      var fs, more := Split.Split(s, BlankLines), Split.Split(rest, BlankLines);
      assert fs == [s[..k]] + more;
      assert fs[..|fs| - 1] == [s[..k]] + more[..|more| - 1];
    }
  }

  /** The fragment right after a blank-line match does not start with
      whitespace up to a line feed: the match would have taken it. */
  lemma LongestNext(s: string)
    requires FirstSeparator(s, 0, BlankLines) < |s|
    ensures var rest := s[SeparatorEnd(s, FirstSeparator(s, 0, BlankLines), BlankLines)..];
      !StartsWithNewlineRun(Split.Split(rest, BlankLines)[0])
  {
    var k := FirstSeparator(s, 0, BlankLines);
    var e := SeparatorEnd(s, k, BlankLines);
    var rest := s[e..];
    var next := Split.Split(rest, BlankLines)[0];
    GreedyBlankLine(s, k);
    FirstFragment(rest, BlankLines);
    forall j: nat | j < |next|
      ensures !(next[j] == '\n' && AllWhitespace(next[..j]))
    {
      assert next[j] == rest[j] && next[..j] == rest[..j];
    }
  }

  /** No blank-line fragment after a match starts with whitespace up to a
      line feed: the matches are longest. */
  lemma {:induction false} BlankLineFragmentsLongest(s: string)
    ensures forall f :: f in Split.Split(s, BlankLines)[1..] ==> !StartsWithNewlineRun(f)
    decreases |s|
  {
    var k := FirstSeparator(s, 0, BlankLines);
    if k < |s| {
      var e := SeparatorEnd(s, k, BlankLines);
      var rest := s[e..];
      LongestNext(s);
      BlankLineFragmentsLongest(rest);
      var more := Split.Split(rest, BlankLines);
      assert Split.Split(s, BlankLines)[1..] == [more[0]] + more[1..];
    }
  }
}
