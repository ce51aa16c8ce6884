/** The vocabulary both redaction passes share: value delimiters, the mask, and what it
    means for a text to be kept except for masked values. */
module Masking {
  import opened Text

  const MASK := "[redacted]"

  /** The characters that end a secret value. */
  predicate IsDelimiter(c: char) {
    c == ';' || c == '&' || c == ' ' || c == '\n' || c == '\r' || c == '\t' ||
    c == '\'' || c == '"' || c == ')' || c == ']' || c == '>'
  }

  lemma DelimitersAre(c: char)
    ensures IsDelimiter(c) <==> c in {';', '&', ' ', '\n', '\r', '\t', '\'', '"', ')', ']', '>'}
  {
  }

  /** `s` ends at `i` or continues with a delimiter there. */
  predicate Boundary(s: string, i: nat) {
    i == |s| || (i < |s| && IsDelimiter(s[i]))
  }

  predicate DelimiterFree(s: string) {
    forall k :: 0 <= k < |s| ==> !IsDelimiter(s[k])
  }

  /** Where the value starting at `k` ends. */
  function ValueStop(s: string, k: nat): (n: nat)
    requires k <= |s|
    ensures k <= n <= |s| && Boundary(s, n)
    ensures forall j :: k <= j < n ==> !IsDelimiter(s[j])
    decreases |s| - k
  {
    if k == |s| || IsDelimiter(s[k]) then k else ValueStop(s, k + 1)
  }

  /** A value is determined by being delimiter free and ending at a boundary. */
  lemma ValueStopIs(s: string, k: nat, n: nat)
    requires k <= n <= |s| && Boundary(s, n)
    requires forall j :: k <= j < n ==> !IsDelimiter(s[j])
    ensures ValueStop(s, k) == n
  {
  }

  /** A complete mask stands at `e`. */
  predicate MaskedAt(s: string, e: nat) {
    At(s, MASK, e) && Boundary(s, e + |MASK|)
  }

  /** Patterns that cannot run into a mask: no bracket, no delimiter, and an end that does
      not occur in the mask. */
  predicate Clean(m: string) {
    && m != ""
    && DelimiterFree(m)
    && '[' !in m
    && m[|m| - 1] !in MASK
  }

  lemma MaskChars(s: string, e: nat)
    requires At(s, MASK, e)
    ensures s[e] == '[' && s[e + 9] == ']'
    ensures forall q {:trigger s[q]} :: e <= q < e + 10 ==> s[q] in MASK
  {
    AtChars(s, MASK, e);
  }

  /** A clean pattern ending behind a mask lies wholly behind the mask and its boundary. */
  lemma BehindMask(s: string, e: nat, m: string, i: nat)
    requires Clean(m) && At(s, m, i) && MaskedAt(s, e) && e < i + |m|
    ensures e + |MASK| < i
  {
    AtChars(s, m, i);
    MaskChars(s, e);
    assert s[i] == m[0];
    assert s[i + |m| - 1] == m[|m| - 1];
  }

  /** In `a + MASK + tail` a clean pattern lies in `a` or in `tail`. */
  lemma AroundMask(a: string, tail: string, m: string, p: nat)
    requires Clean(m) && At(a + MASK + tail, m, p)
    ensures p + |m| <= |a| || |a| + |MASK| <= p
    ensures p + |m| <= |a| ==> At(a, m, p)
    ensures |a| + |MASK| <= p ==> At(tail, m, p - |a| - |MASK|)
  {
    var s := a + MASK + tail;
    AtChars(s, m, p);
    assert s[|a|..|a| + |MASK|] == MASK;
    MaskChars(s, |a|);
    assert s[p + |m| - 1] == m[|m| - 1];
    if p + |m| <= |a| {
      assert s == a + (MASK + tail);
      AtPrefix(a, MASK + tail, m, p);
    } else {
      AtTail(a + MASK, tail, m, p);
    }
  }

  /** Complete masks survive when text is put around them. */
  lemma MaskedAtAppend(a: string, b: string, e: nat)
    requires MaskedAt(a, e) && e + |MASK| < |a|
    ensures MaskedAt(a + b, e)
  {
    AtPrefix(a, b, MASK, e);
  }

  lemma MaskedAtPrepend(a: string, b: string, e: nat)
    requires MaskedAt(b, e)
    ensures MaskedAt(a + b, |a| + e)
  {
    AtTail(a, b, MASK, |a| + e);
  }

  lemma MaskedAtCut(a: string, b: string)
    requires Boundary(b, 0)
    ensures MaskedAt(a + MASK + b, |a|)
  {
    var s := a + MASK + b;
    assert s[|a|..|a| + |MASK|] == MASK;
    assert |b| > 0 ==> s[|a| + |MASK|] == b[0];
  }

  /** Kept fragments with a filling between each two of them. */
  function Weave(kept: seq<string>, fill: seq<string>): string
    requires |kept| == |fill| + 1
  {
    if fill == [] then kept[0]
    else kept[0] + fill[0] + Weave(kept[1..], fill[1..])
  }

  function Masks(n: nat): (r: seq<string>)
    ensures |r| == n
  {
    seq(n, _ => MASK)
  }

  /** A text cut into kept fragments and the values between them. */
  datatype Cuts = Cuts(kept: seq<string>, values: seq<string>)

  /** Each value is delimiter free and runs up to a boundary. */
  ghost predicate CutsAtBoundaries(c: Cuts) {
    && |c.kept| == |c.values| + 1
    && (forall j :: 0 <= j < |c.values| ==> DelimiterFree(c.values[j]))
    && (forall j :: 0 < j < |c.kept| ==> Boundary(c.kept[j], 0))
    && (forall j :: 0 < j < |c.kept| - 1 ==> c.kept[j] != "")
  }

  /** Cuts with one more value in front. */
  function PrependCut(kept: string, value: string, rest: Cuts): Cuts {
    Cuts([kept] + rest.kept, [value] + rest.values)
  }

  lemma WeavePrepend(kept: string, value: string, rest: Cuts)
    requires |rest.kept| == |rest.values| + 1
    ensures var c := PrependCut(kept, value, rest);
            && |c.kept| == |c.values| + 1
            && Weave(c.kept, c.values) == kept + value + Weave(rest.kept, rest.values)
            && Weave(c.kept, Masks(|c.values|)) == kept + MASK + Weave(rest.kept, Masks(|rest.values|))
  {
    var c := PrependCut(kept, value, rest);
    assert c.kept[1..] == rest.kept && c.values[1..] == rest.values;
    assert Masks(|c.values|)[1..] == Masks(|rest.values|);
  }

  lemma PrependAtBoundaries(kept: string, value: string, rest: Cuts)
    requires CutsAtBoundaries(rest) && DelimiterFree(value) && Boundary(rest.kept[0], 0)
    requires |rest.values| > 0 ==> rest.kept[0] != ""
    ensures CutsAtBoundaries(PrependCut(kept, value, rest))
  {
    hide IsDelimiter, Boundary, DelimiterFree;
    var c := PrependCut(kept, value, rest);
    assert forall j :: 0 < j < |c.kept| ==> c.kept[j] == rest.kept[j - 1];
    assert forall j :: 0 < j < |c.values| ==> c.values[j] == rest.values[j - 1];
  }
}
