/** The record the analyzer produces and the editor consumes, and the ids it
    carries: `<pattern>-<match>` for a pattern match and `passive-<i>`,
    `long-sentence-<i>`, `variety-<i>` for the sentence checks. */
module Writing {
  import opened Wrappers
  import opened Text

  datatype Category = Grammar | Style | Clarity

  datatype Severity = Error | Warning | Info

  /** One flagged span: `[startIndex, endIndex)` locates `originalText`. */
  datatype Suggestion = Suggestion(
    id: string,
    category: Category,
    severity: Severity,
    originalText: string,
    replacement: Option<string>,
    explanation: string,
    startIndex: int,
    endIndex: int)

  /** The severity a pattern suggestion takes from its category. */
  function SeverityOf(c: Category): Severity {
    match c
    case Grammar => Error
    case Style => Warning
    case Clarity => Info
  }

  /** What an id is made from. */
  datatype IdKey =
    | PatternKey(pattern: nat, matchIndex: nat)
    | PassiveKey(sentence: nat)
    | LongKey(sentence: nat)
    | VarietyKey(sentence: nat)

  const PassivePrefix: string := "passive-"
  const LongPrefix: string := "long-sentence-"
  const VarietyPrefix: string := "variety-"

  /** The id string, as the template literals build it. */
  function RenderId(k: IdKey): string {
    match k
    case PatternKey(p, m) => NatToString(p) + "-" + NatToString(m)
    case PassiveKey(i) => PassivePrefix + NatToString(i)
    case LongKey(i) => LongPrefix + NatToString(i)
    case VarietyKey(i) => VarietyPrefix + NatToString(i)
  }

  predicate HasPrefix(s: string, prefix: string) {
    |prefix| <= |s| && s[..|prefix|] == prefix
  }

  /** Index of the first `-`, or `|s|`. */
  function FirstDash(s: string): (d: nat)
    ensures d <= |s|
    ensures d < |s| ==> s[d] == '-'
    ensures forall j :: 0 <= j < d ==> s[j] != '-'
  {
    if |s| == 0 || s[0] == '-' then 0 else 1 + FirstDash(s[1..])
  }

  /** Reads the parts back out of an id string, whatever its shape. */
  function ReadKey(id: string): IdKey {
    if HasPrefix(id, PassivePrefix) then PassiveKey(ParseNat(id[|PassivePrefix|..]))
    else if HasPrefix(id, LongPrefix) then LongKey(ParseNat(id[|LongPrefix|..]))
    else if HasPrefix(id, VarietyPrefix) then VarietyKey(ParseNat(id[|VarietyPrefix|..]))
    else
      var d := FirstDash(id);
      PatternKey(ParseNat(id[..d]), if d < |id| then ParseNat(id[d + 1..]) else 0)
  }

  /** The key an id was rendered from, if it is one. */
  function ParseId(id: string): (r: Option<IdKey>)
    ensures r.Some? ==> RenderId(r.value) == id
  {
    var k := ReadKey(id);
    if RenderId(k) == id then Some(k) else None
  }

  lemma {:induction false} ReadRenderedKey(k: IdKey)
    ensures ReadKey(RenderId(k)) == k
  {
    var id := RenderId(k);
    match k
    case PatternKey(p, m) =>
      var a := NatToString(p);
      var b := NatToString(m);
      assert IsDigit(id[0]);
      assert !HasPrefix(id, PassivePrefix) && !HasPrefix(id, LongPrefix) && !HasPrefix(id, VarietyPrefix);
      assert id[|a|] == '-';
      assert forall j :: 0 <= j < |a| ==> id[j] == a[j] && id[j] != '-';
      assert FirstDash(id) == |a|;
      assert id[..|a|] == a;
      assert id[|a| + 1..] == b;
      ParseNatToString(p);
      ParseNatToString(m);
    case PassiveKey(i) =>
      assert id[|PassivePrefix|..] == NatToString(i);
      ParseNatToString(i);
    case LongKey(i) =>
      assert !HasPrefix(id, PassivePrefix);
      assert id[|LongPrefix|..] == NatToString(i);
      ParseNatToString(i);
    case VarietyKey(i) =>
      assert !HasPrefix(id, PassivePrefix) && !HasPrefix(id, LongPrefix);
      assert id[|VarietyPrefix|..] == NatToString(i);
      ParseNatToString(i);
  }

  /** Parsing is the exact inverse of rendering: an id names one key, and
      each key has one id. */
  lemma ParseIdExact(id: string, k: IdKey)
    ensures ParseId(id) == Some(k) <==> RenderId(k) == id
  {
    if RenderId(k) == id {
      ReadRenderedKey(k);
    }
  }

  /** Distinct keys give distinct ids. */
  lemma RenderIdInjective(a: IdKey, b: IdKey)
    requires a != b
    ensures RenderId(a) != RenderId(b)
  {
    ReadRenderedKey(a);
    ReadRenderedKey(b);
  }
}
