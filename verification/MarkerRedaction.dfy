/** The `marker=value` redaction pass: what one pass computes, that it is exactly a
    substitution of values, and that it never undoes what another pass established. */
module MarkerRedaction {
  import opened Text
  import opened Masking

  /** The shape all markers share: one `=`, at the end; no delimiter, bracket or colon. */
  predicate IsMarker(m: string) {
    && m != ""
    && m[|m| - 1] == '='
    && (forall k :: 0 <= k < |m| - 1 ==> m[k] != '=')
    && DelimiterFree(m)
    && '[' !in m
    && ':' !in m
  }

  /** A marker spans no delimiter and goes on behind no `=`. */
  lemma NotAcross(s: string, m: string, j: nat, q: nat)
    requires IsMarker(m) && j <= q < j + |m| && q < |s|
    requires IsDelimiter(s[q]) || (s[q] == '=' && q != j + |m| - 1)
    ensures !At(s, m, j)
  {
    hide Masking.IsDelimiter;
    if At(s, m, j) {
      AtChars(s, m, j);
    }
  }

  /** One pass: every value behind the marker becomes the mask. */
  function Redact(s: string, m: string): string
    requires m != ""
    decreases |s|
  {
    match Find(s, m)
    case None => s
    case Some(i) =>
      var k := i + |m|;
      s[..k] + MASK + Redact(s[ValueStop(s, k)..], m)
  }

  /** One step of `Redact`, as an equation. */
  lemma RedactStep(s: string, m: string, i: nat)
    requires m != "" && Find(s, m) == Some(i)
    ensures Redact(s, m) == s[..i + |m|] + MASK + Redact(s[ValueStop(s, i + |m|)..], m)
  {
    hide Text.Find, Masking.ValueStop;
  }

  lemma RedactEnd(s: string, m: string)
    requires m != "" && Find(s, m) == None
    ensures Redact(s, m) == s
  {
    hide Text.Find;
  }

  /** The loop over `rest` computes `Redact`. */
  method RedactKeyValueAfterMarker(input: string, marker: string) returns (output: string)
    requires marker != ""
    ensures output == Redact(input, marker)
  {
    hide *;
    output := "";
    var rest := input;
    var next := Find(rest, marker);
    while next.Some?
      invariant next == Find(rest, marker)
      invariant output + Redact(rest, marker) == Redact(input, marker)
      decreases |rest|
    {
      var before, afterBefore := rest[..next.value], rest[next.value..];
      ghost var done, all := output, rest;
      output := output + before;
      output := output + marker;
      output := output + MASK;
      var value := afterBefore[|marker|..];
      rest := value[ValueStop(value, 0)..];
      next := Find(rest, marker);
      SplitStep(all, before, value, marker);
      assert output == done + (before + marker + MASK);
    }
    RedactEnd(rest, marker);
    output := output + rest;
  }

  /** Splitting off the marker and the value first gives the same step. */
  lemma SplitStep(s: string, before: string, value: string, m: string)
    requires m != "" && Find(s, m) == Some(|before|)
    requires before == s[..|before|] && value == s[|before|..][|m|..]
    ensures Redact(s, m) == before + m + MASK + Redact(value[ValueStop(value, 0)..], m)
  {
    hide Masking.IsDelimiter, Masking.ValueStop, Redact, Text.Find;
    RedactStep(s, m, |before|);
    var k := |before| + |m|;
    assert value == s[k..];
    assert before + m == s[..k];
    ValueStopIs(s, k, k + ValueStop(value, 0));
    assert value[ValueStop(value, 0)..] == s[ValueStop(s, k)..];
  }

  /** Every occurrence of `g` is followed by a complete mask. */
  ghost predicate Guarded(s: string, g: string) {
    forall p: nat :: At(s, g, p) ==> MaskedAt(s, p + |g|)
  }

  lemma GuardedSuffix(s: string, k: nat, g: string)
    requires k <= |s| && Guarded(s, g)
    ensures Guarded(s[k..], g)
  {
    hide Masking.IsDelimiter;
    forall p: nat | At(s[k..], g, p) ensures MaskedAt(s[k..], p + |g|) {
      AtSuffix(s, k, g, p);
      AtSuffix(s, k, MASK, p + |g|);
    }
  }

  /** Cutting a value out keeps a guard, if each occurrence in the kept part either ends
      at the cut or is already masked inside the kept part. */
  lemma CutKeepsGuard(a: string, tail: string, g: string)
    requires IsMarker(g) && Guarded(tail, g) && Boundary(tail, 0)
    requires forall p: nat :: At(a, g, p) ==>
               p + |g| == |a| || (MaskedAt(a, p + |g|) && p + |g| + |MASK| < |a|)
    ensures Guarded(a + MASK + tail, g)
  {
    hide Masking.IsDelimiter;
    var s := a + MASK + tail;
    forall p: nat | At(s, g, p) ensures MaskedAt(s, p + |g|) {
      AroundMask(a, tail, g, p);
      if p + |g| == |a| {
        MaskedAtCut(a, tail);
      } else if p + |g| < |a| {
        MaskedAtAppend(a, MASK + tail, p + |g|);
        assert s == a + (MASK + tail);
      } else {
        MaskedAtPrepend(a + MASK, tail, p - |a| - |MASK| + |g|);
      }
    }
  }

  /** A pass never moves the first character if that is a delimiter. */
  lemma RedactKeepsBoundary(s: string, m: string)
    requires IsMarker(m) && Boundary(s, 0)
    ensures Boundary(Redact(s, m), 0)
    ensures s == "" <==> Redact(s, m) == ""
  {
    match Find(s, m)
    case None =>
    case Some(i) => AtChars(s, m, i); assert s[i] == m[0];
  }

  /** Up to the first marker, every occurrence of `g` ends with that marker or is masked
      before it. */
  lemma KeptIsGuarded(s: string, m: string, g: string, i: nat)
    requires IsMarker(m) && IsMarker(g) && Find(s, m) == Some(i)
    requires g == m || Guarded(s, g)
    ensures var a := s[..i + |m|];
            forall p: nat :: At(a, g, p) ==>
              p + |g| == |a| || (MaskedAt(a, p + |g|) && p + |g| + |MASK| < |a|)
  {
    hide Masking.IsDelimiter;
    var a, b := s[..i + |m|], s[i + |m|..];
    assert s == a + b;
    forall p: nat | At(a, g, p) && p + |g| < |a|
      ensures MaskedAt(a, p + |g|) && p + |g| + |MASK| < |a|
    {
      AtPrefix(a, b, g, p);
      BehindMask(s, p + |g|, m, i);
      AtPrefix(a, b, MASK, p + |g|);
    }
  }

  /** A pass masks its own marker and preserves the guard of every other one. */
  lemma {:induction false} RedactGuards(s: string, m: string, g: string)
    requires IsMarker(m) && IsMarker(g)
    requires g == m || Guarded(s, g)
    ensures Guarded(Redact(s, m), g)
    decreases |s|
  {
    hide Masking.IsDelimiter, Masking.ValueStop, Redact, Text.FindFrom, Text.Find, Text.At;
    match Find(s, m)
    case None =>
      RedactEnd(s, m);
    case Some(i) =>
      RedactStep(s, m, i);
      var k := i + |m|;
      var from := ValueStop(s, k);
      assert Boundary(s[from..], 0);
      if g != m {
        GuardedSuffix(s, from, g);
      }
      RedactGuards(s[from..], m, g);
      RedactKeepsBoundary(s[from..], m);
      KeptIsGuarded(s, m, g, i);
      CutKeepsGuard(s[..k], Redact(s[from..], m), g);
  }

  /** The cuts a pass makes. */
  function MarkerCuts(s: string, m: string): Cuts
    requires m != ""
    decreases |s|
  {
    match Find(s, m)
    case None => Cuts([s], [])
    case Some(i) =>
      var k := i + |m|;
      var n := ValueStop(s, k);
      PrependCut(s[..k], s[k..n], MarkerCuts(s[n..], m))
  }

  /** Each kept fragment but the last ends with its only occurrence of the marker; the last
      has none. */
  ghost predicate MarkerFragments(kept: seq<string>, m: string) {
    && kept != []
    && (forall j :: 0 <= j < |kept| - 1 ==>
          |m| <= |kept[j]| && Find(kept[j], m) == Some(|kept[j]| - |m|))
    && Find(kept[|kept| - 1], m) == None
  }

  lemma CutsStep(s: string, m: string, i: nat)
    requires m != "" && Find(s, m) == Some(i)
    ensures var n := ValueStop(s, i + |m|);
            MarkerCuts(s, m) == PrependCut(s[..i + |m|], s[i + |m|..n], MarkerCuts(s[n..], m))
  {
    hide Text.Find, Masking.ValueStop;
  }

  /** The text up to and including the first marker is a fragment. */
  lemma FirstFragment(s: string, m: string, i: nat)
    requires Find(s, m) == Some(i)
    ensures Find(s[..i + |m|], m) == Some(i)
  {
    var a, b := s[..i + |m|], s[i + |m|..];
    assert s == a + b;
    forall j: nat | j <= i ensures At(a, m, j) <==> At(s, m, j) {
      AtPrefix(a, b, m, j);
    }
    FindIs(a, m, i);
  }

  lemma WholeIsUncut(s: string, m: string)
    requires m != "" && Find(s, m) == None
    ensures MarkerCuts(s, m) == Cuts([s], [])
    ensures MarkerFragments([s], m) && CutsAtBoundaries(Cuts([s], [])) && Weave([s], []) == s
  {
    hide Text.Find;
  }

  lemma PrependFragment(a: string, kept: seq<string>, m: string)
    requires MarkerFragments(kept, m) && |m| <= |a| && Find(a, m) == Some(|a| - |m|)
    ensures MarkerFragments([a] + kept, m)
  {
    hide Text.Find;
    var all := [a] + kept;
    assert forall j :: 0 < j < |all| ==> all[j] == kept[j - 1];
  }

  /** Every input is cut into fragments and delimiter-free values, and the output is the
      same text with every value replaced by the mask. */
  lemma {:induction false} RedactIsSubstitution(s: string, m: string)
    requires IsMarker(m)
    ensures var c := MarkerCuts(s, m);
            && CutsAtBoundaries(c)
            && MarkerFragments(c.kept, m)
            && Weave(c.kept, c.values) == s
            && Weave(c.kept, Masks(|c.values|)) == Redact(s, m)
            && c.kept[0] <= s && (|c.values| > 0 ==> c.kept[0] != "")
    decreases |s|
  {
    hide Masking.IsDelimiter, Masking.ValueStop, Redact, MarkerCuts, MarkerFragments,
      Masking.Weave, Text.FindFrom, Text.Find, Text.At;
    match Find(s, m)
    case None =>
      RedactEnd(s, m);
      WholeIsUncut(s, m);
    case Some(i) =>
      var k := i + |m|;
      var n := ValueStop(s, k);
      var tail := MarkerCuts(s[n..], m);
      RedactIsSubstitution(s[n..], m);
      CutsStep(s, m, i);
      RedactStep(s, m, i);
      WeavePrepend(s[..k], s[k..n], tail);
      assert s == s[..k] + s[k..n] + s[n..];
      FirstFragment(s, m, i);
      PrependFragment(s[..k], tail.kept, m);
      assert Boundary(s[n..], 0);
      PrependAtBoundaries(s[..k], s[k..n], tail);
  }

  /** Conversely, any text woven from such fragments and delimiter-free values is redacted
      to those fragments with masks: the output does not depend on the values. */
  lemma {:induction false} RedactIgnoresValues(kept: seq<string>, values: seq<string>, m: string)
    requires IsMarker(m) && MarkerFragments(kept, m) && CutsAtBoundaries(Cuts(kept, values))
    ensures Redact(Weave(kept, values), m) == Weave(kept, Masks(|values|))
    decreases |values|
  {
    hide Masking.IsDelimiter, Masking.ValueStop, Redact, Text.FindFrom, Text.Find;
    if values == [] {
      RedactEnd(kept[0], m);
    } else {
      var tail := Weave(kept[1..], values[1..]);
      WovenTail(kept, values);
      WovenStep(kept[0], values[0], tail, m);
      assert CutsAtBoundaries(Cuts(kept[1..], values[1..]));
      RedactIgnoresValues(kept[1..], values[1..], m);
      assert Masks(|values|)[1..] == Masks(|values| - 1);
    }
  }

  lemma WovenTail(kept: seq<string>, values: seq<string>)
    requires values != [] && CutsAtBoundaries(Cuts(kept, values))
    ensures Boundary(Weave(kept[1..], values[1..]), 0)
  {
    assert kept[1..][0] == kept[1];
  }

  /** One step of `Redact` on a fragment, a value and the rest. */
  lemma WovenStep(kept: string, value: string, tail: string, m: string)
    requires IsMarker(m) && |m| <= |kept| && Find(kept, m) == Some(|kept| - |m|)
    requires DelimiterFree(value) && Boundary(tail, 0)
    ensures Redact(kept + value + tail, m) == kept + MASK + Redact(tail, m)
  {
    hide Masking.IsDelimiter, Masking.ValueStop, Redact, Text.FindFrom, Text.Find;
    var s, i, k := kept + value + tail, |kept| - |m|, |kept|;
    assert s == kept + (value + tail);
    forall j: nat | j <= i ensures At(s, m, j) <==> At(kept, m, j) {
      AtPrefix(kept, value + tail, m, j);
    }
    FindIs(s, m, i);
    ValueStopIs(s, k, k + |value|);
    RedactStep(s, m, i);
    assert s[..k] == kept && s[k + |value|..] == tail;
  }

  /** A second pass only lengthens the text: the closing bracket of a mask is itself a
      delimiter, so it cuts `[redacted` and leaves the bracket behind its own mask. */
  lemma {:induction false} SecondPassGrows(s: string, m: string)
    requires IsMarker(m)
    ensures |Redact(Redact(s, m), m)| >= |Redact(s, m)|
    ensures Find(s, m).Some? ==> |Redact(Redact(s, m), m)| > |Redact(s, m)|
    decreases |s|
  {
    hide Masking.IsDelimiter, Masking.ValueStop, Redact, Text.FindFrom, Text.Find, Text.At;
    match Find(s, m)
    case None =>
      RedactEnd(s, m);
    case Some(i) =>
      var k := i + |m|;
      var rest := s[ValueStop(s, k)..];
      var t := Redact(rest, m);
      RedactStep(s, m, i);
      SecondPassGrows(rest, m);
      FirstFragment(s, m, i);
      assert s[..k] + MASK + t == s[..k] + MASK[..9] + ("]" + t);
      assert DelimiterFree(MASK[..9]) && Boundary("]" + t, 0) by {
        MaskBody(t);
      }
      WovenStep(s[..k], MASK[..9], "]" + t, m);
      LeadingDelimiter(']', t, m);
  }

  lemma MaskBody(t: string)
    ensures DelimiterFree(MASK[..9]) && Boundary("]" + t, 0)
  {
  }

  /** A leading delimiter is passed over. */
  lemma LeadingDelimiter(d: char, t: string, m: string)
    requires IsMarker(m) && IsDelimiter(d)
    ensures Redact([d] + t, m) == [d] + Redact(t, m)
  {
    hide Masking.ValueStop, Masking.IsDelimiter, Redact, Text.FindFrom, Text.Find;
    var s := [d] + t;
    forall j: nat ensures At(s, m, j) <==> j >= 1 && At(t, m, j - 1) {
      if j == 0 {
        NotAtHead(s, m);
      } else {
        AtTail([d], t, m, j);
      }
    }
    match Find(t, m)
    case None =>
      RedactEnd(t, m);
      RedactEnd(s, m);
    case Some(i) =>
      var k := i + |m|;
      FindIs(s, m, i + 1);
      RedactStep(t, m, i);
      RedactStep(s, m, i + 1);
      LaterStop(d, t, k);
      assert s[..k + 1] == [d] + t[..k];
      assert s[ValueStop(t, k) + 1..] == t[ValueStop(t, k)..];
  }

  lemma LaterStop(d: char, t: string, k: nat)
    requires k <= |t|
    ensures ValueStop([d] + t, k + 1) == ValueStop(t, k) + 1
  {
    hide Masking.IsDelimiter;
    ValueStopIs([d] + t, k + 1, ValueStop(t, k) + 1);
  }

  /** A marker pass is idempotent on exactly the texts without the marker. */
  lemma RedactTwice(s: string, m: string)
    requires IsMarker(m)
    ensures Redact(Redact(s, m), m) == Redact(s, m) <==> Find(s, m).None?
  {
    hide Redact, Text.Find;
    SecondPassGrows(s, m);
    if Find(s, m).None? {
      RedactEnd(s, m);
    }
  }
}
