/** The storage-driver message sanitizer from its marker fold on: nine marker passes, then
    the bearer pass. */
module Sanitizer {
  import opened Text
  import opened Masking
  import opened MarkerRedaction
  import opened BearerRedaction

  const MARKERS: seq<string> := [
    "AccountKey=", "SharedAccessSignature=", "sig=", "signature=", "X-Amz-Signature=",
    "AWSAccessKeyId=", "access_key=", "secret_key=", "SecretAccessKey="
  ]

  predicate AllMarkers(ms: seq<string>) {
    forall j :: 0 <= j < |ms| ==> IsMarker(ms[j])
  }

  lemma MarkersAreMarkers()
    ensures AllMarkers(MARKERS)
  {
    hide IsMarker;
    AzureMarkers();
    SignatureMarkers();
    AwsMarkers();
    KeyMarkers();
  }

  lemma AzureMarkers()
    ensures IsMarker("AccountKey=") && IsMarker("SharedAccessSignature=")
  {
  }

  lemma SignatureMarkers()
    ensures IsMarker("sig=") && IsMarker("signature=")
  {
  }

  lemma AwsMarkers()
    ensures IsMarker("X-Amz-Signature=") && IsMarker("AWSAccessKeyId=")
  {
  }

  lemma KeyMarkers()
    ensures IsMarker("access_key=") && IsMarker("secret_key=") && IsMarker("SecretAccessKey=")
  {
  }

  /** The passes for a list of markers, one after the other. */
  function Fold(s: string, ms: seq<string>): string
    requires AllMarkers(ms)
    decreases ms
  {
    if ms == [] then s else Fold(Redact(s, ms[0]), ms[1..])
  }

  function Sanitize(s: string): string {
    MarkersAreMarkers();
    RedactBearer(Fold(s, MARKERS))
  }

  lemma FoldSnoc(s: string, ms: seq<string>, m: string)
    requires AllMarkers(ms + [m])
    ensures IsMarker(m) && AllMarkers(ms)
    ensures Fold(s, ms + [m]) == Redact(Fold(s, ms), m)
    decreases ms
  {
    hide Redact;
    assert (ms + [m])[|ms|] == m && forall j :: 0 <= j < |ms| ==> (ms + [m])[j] == ms[j];
    if ms != [] {
      assert (ms + [m])[1..] == ms[1..] + [m];
      FoldSnoc(Redact(s, ms[0]), ms[1..], m);
    }
  }

  /** The sanitizer's loop over the markers and its final pass. */
  method SanitizeMarkers(text: string) returns (sanitized: string)
    ensures sanitized == Sanitize(text)
  {
    hide Redact, IsMarker, RedactBearer;
    MarkersAreMarkers();
    sanitized := text;
    for n := 0 to |MARKERS|
      invariant sanitized == Fold(text, MARKERS[..n])
    {
      assert MARKERS[..n + 1] == MARKERS[..n] + [MARKERS[n]];
      FoldSnoc(text, MARKERS[..n], MARKERS[n]);
      sanitized := RedactKeyValueAfterMarker(sanitized, MARKERS[n]);
    }
    assert MARKERS[..|MARKERS|] == MARKERS;
    sanitized := RedactAuthorizationBearer(sanitized);
  }

  /** A marker handled once stays handled through all later passes. */
  lemma {:induction false} FoldGuards(s: string, ms: seq<string>, g: string)
    requires AllMarkers(ms) && IsMarker(g) && (g in ms || Guarded(s, g))
    ensures Guarded(Fold(s, ms), g)
    decreases |ms|
  {
    hide Redact, Guarded;
    if ms != [] {
      if g == ms[0] || Guarded(s, g) {
        RedactGuards(s, ms[0], g);
      }
      FoldGuards(Redact(s, ms[0]), ms[1..], g);
    }
  }

  /** In every sanitized text each of the nine markers is followed by a complete mask, and
      so is every bearer header. */
  lemma SanitizedIsMasked(s: string, g: string)
    requires g in MARKERS
    ensures Guarded(Sanitize(s), g)
    ensures BearerGuarded(Sanitize(s))
  {
    hide Redact, IsMarker, Guarded, RedactBearer, BearerGuarded, Fold;
    MarkersAreMarkers();
    FoldGuards(s, MARKERS, g);
    BearerKeepsGuard(Fold(s, MARKERS), g);
    BearerIsMasked(Fold(s, MARKERS));
  }

  /** Behind text without the marker, occurrences are those of the text that follows. */
  lemma OccursBehind(x: string, b: string, p: string, j: nat)
    requires IsMarker(p) && Find(x, p) == None && Boundary(b, 0)
    ensures At(x + b, p, j) <==> |x| <= j && At(b, p, j - |x|)
  {
    hide Masking.IsDelimiter, Text.Find;
    if |x| <= j {
      AtTail(x, b, p, j);
    } else if j + |p| <= |x| {
      AtPrefix(x, b, p, j);
    } else if b != "" {
      NotAcross(x + b, p, j, |x|);
    }
  }

  lemma FindBehind(x: string, b: string, p: string)
    requires IsMarker(p) && Find(x, p) == None && Boundary(b, 0)
    ensures Find(x + b, p) == match Find(b, p) case None => None case Some(i) => Some(|x| + i)
  {
    hide Masking.IsDelimiter, Text.Find, Text.At;
    forall j: nat ensures At(x + b, p, j) <==> |x| <= j && At(b, p, j - |x|) {
      OccursBehind(x, b, p, j);
    }
    match Find(b, p)
    case None => assert Find(x + b, p) == None;
    case Some(i) => FindIs(x + b, p, |x| + i);
  }

  /** Text without the marker in front of a boundary is passed over. */
  lemma PassOver(x: string, b: string, p: string)
    requires IsMarker(p) && Find(x, p) == None && Boundary(b, 0)
    ensures Redact(x + b, p) == x + Redact(b, p)
  {
    hide Redact, Text.Find, Text.At, Masking.ValueStop, Masking.IsDelimiter, IsMarker;
    var s := x + b;
    FindBehind(x, b, p);
    assert p != "" by { MarkerNotEmpty(p); }
    match Find(b, p)
    case None =>
      RedactEnd(b, p);
      RedactEnd(s, p);
    case Some(i) =>
      var k := i + |p|;
      RedactStep(b, p, i);
      RedactStep(s, p, |x| + i);
      ValueStopBehind(x, b, k);
      assert s[..|x| + k] == x + b[..k];
      assert s[|x| + ValueStop(b, k)..] == b[ValueStop(b, k)..];
  }

  lemma MarkerNotEmpty(p: string)
    requires IsMarker(p)
    ensures p != ""
  {
  }

  lemma ValueStopBehind(x: string, b: string, k: nat)
    requires k <= |b|
    ensures ValueStop(x + b, |x| + k) == |x| + ValueStop(b, k)
  {
    hide Masking.IsDelimiter;
    ValueStopIs(x + b, |x| + k, |x| + ValueStop(b, k));
  }

  /** Text ending with `=` and text behind it share no occurrence of a marker. */
  lemma NoStraddle(x: string, v: string, p: string)
    requires IsMarker(p) && Find(x, p) == None && Find(v, p) == None
    requires x != "" && x[|x| - 1] == '='
    ensures Find(x + v, p) == None
  {
    hide Text.FindFrom, Masking.IsDelimiter;
    var s := x + v;
    forall j: nat ensures !At(s, p, j) {
      if |x| <= j {
        AtTail(x, v, p, j);
      } else if j + |p| <= |x| {
        AtPrefix(x, v, p, j);
      } else {
        NotAcross(s, p, j, |x| - 1);
      }
    }
  }

  /** Without a delimiter up to its end, a value in `x` takes the value behind `x` along. */
  lemma ValueRunsOn(x: string, v: string, b: string, k: nat)
    requires k <= |x| && ValueStop(x, k) == |x| && DelimiterFree(v) && Boundary(b, 0)
    ensures ValueStop(x + v + b, k) == |x| + |v|
  {
    hide Masking.IsDelimiter, Masking.ValueStop;
    assert forall j :: k <= j < |x| ==> !IsDelimiter(x[j]);
    ValueStopIs(x + v + b, k, |x| + |v|);
  }

  lemma ValueStaysIn(x: string, y: string, k: nat)
    requires k <= |x| && ValueStop(x, k) < |x|
    ensures ValueStop(x + y, k) == ValueStop(x, k)
  {
    hide Masking.IsDelimiter, Masking.ValueStop;
    ValueStopIs(x + y, k, ValueStop(x, k));
  }

  /** How one pass treats a text with a value `v` behind a marker: either the result does not
      depend on `v`, or the value still stands behind that marker, in front of a boundary. */
  ghost predicate PassOutcome(a: string, m: string, v: string, b: string, p: string,
                              same: bool, a': string, b': string)
    requires p != ""
  {
    var r := Redact(a + m + v + b, p);
    if same then r == a' + b' else p != m && r == a' + m + v + b' && Boundary(b', 0)
  }

  /** The value is taken along by a value that starts in front of it. */
  lemma ValueSwallowed(a: string, m: string, v: string, b: string, p: string, i: nat)
    requires IsMarker(m) && IsMarker(p) && DelimiterFree(v) && Boundary(b, 0)
    requires Find(a + m, p) == Some(i) && ValueStop(a + m, i + |p|) == |a + m|
    ensures PassOutcome(a, m, v, b, p, true, (a + m)[..i + |p|] + MASK, Redact(b, p))
  {
    hide Redact, Text.Find, Text.At, Masking.ValueStop, Masking.IsDelimiter, Masking.Boundary, Masking.DelimiterFree;
    var x := a + m;
    var s := x + v + b;
    assert s == x + (v + b);
    FindInFront(x, v + b, p, i);
    ValueRunsOn(x, v, b, i + |p|);
    RedactStep(s, p, i);
    assert s[|x| + |v|..] == b;
    assert s[..i + |p|] == x[..i + |p|];
  }

  /** The value stands behind text the pass leaves alone. */
  lemma ValueUntouched(a: string, m: string, v: string, b: string, p: string)
    requires IsMarker(m) && IsMarker(p) && DelimiterFree(v) && Boundary(b, 0) && Find(v, p) == None
    requires Find(a + m, p) == None
    ensures PassOutcome(a, m, v, b, p, false, a, Redact(b, p))
  {
    hide Redact, Text.Find, Masking.ValueStop, Masking.IsDelimiter;
    assert At(a + m, m, |a|);
    NoStraddle(a + m, v, p);
    PassOver(a + m + v, b, p);
    RedactKeepsBoundary(b, p);
  }

  /** The first value in front is cut. */
  lemma FrontIsCut(a: string, m: string, v: string, b: string, p: string, i: nat, q: nat)
    requires IsMarker(p) && Find(a + m, p) == Some(i)
    requires q == ValueStop(a + m, i + |p|) && q <= |a| && q < |a + m|
    ensures Redact(a + m + v + b, p) == (a + m)[..i + |p|] + MASK + Redact(a[q..] + m + v + b, p)
  {
    hide Redact, Text.Find, Text.At, Masking.ValueStop, Masking.IsDelimiter, Masking.Boundary, Masking.DelimiterFree;
    var x := a + m;
    var s := x + v + b;
    assert s == x + (v + b);
    FindInFront(x, v + b, p, i);
    ValueStaysIn(x, v + b, i + |p|);
    RedactStep(s, p, i);
    SuffixOfHole(a, m, v, b, q);
    assert s[..i + |p|] == x[..i + |p|];
  }

  /** One value in front is cut; what follows is the same situation again. */
  lemma ValueLater(a: string, m: string, v: string, b: string, p: string, i: nat, q: nat,
                   same: bool, a': string, b': string)
    requires IsMarker(m) && IsMarker(p) && Find(a + m, p) == Some(i)
    requires q == ValueStop(a + m, i + |p|) && q <= |a|  && q < |a + m|
    requires PassOutcome(a[q..], m, v, b, p, same, a', b')
    ensures PassOutcome(a, m, v, b, p, same, (a + m)[..i + |p|] + MASK + a', b')
  {
    hide Redact, Text.Find, Text.At, Masking.ValueStop, Masking.IsDelimiter, Masking.Boundary, Masking.DelimiterFree;
    FrontIsCut(a, m, v, b, p, i, q);
    var front := (a + m)[..i + |p|] + MASK;
    if same {
      assert front + (a' + b') == front + a' + b';
    } else {
      Regroup(front, a', m, v, b');
    }
  }

  lemma SuffixOfHole(a: string, m: string, v: string, b: string, q: nat)
    requires q <= |a|
    ensures (a + m + v + b)[q..] == a[q..] + m + v + b
  {
  }

  lemma Regroup(f: string, a: string, m: string, v: string, b: string)
    ensures f + (a + m + v + b) == f + a + m + v + b
  {
    assert f + (a + m + v + b) == f + (a + m + v) + b;
    assert f + (a + m + v) == f + (a + m) + v;
    assert f + (a + m) == f + a + m;
  }

  lemma OwnMarkerIsFound(a: string, m: string)
    ensures Find(a + m, m) != None
  {
    hide Text.Find;
    assert At(a + m, m, |a|);
  }

  /** A pass treats two values behind the same marker alike, if it is the pass for that marker
      or finds its own in neither of them. */
  lemma {:induction false} PassTreatsAlike(a: string, m: string, v: string, w: string, b: string, p: string)
      returns (same: bool, a': string, b': string)
    requires IsMarker(m) && IsMarker(p) && Boundary(b, 0)
    requires DelimiterFree(v) && DelimiterFree(w)
    requires p == m || (Find(v, p) == None && Find(w, p) == None)
    ensures PassOutcome(a, m, v, b, p, same, a', b') && PassOutcome(a, m, w, b, p, same, a', b')
    decreases |a|
  {
    hide Redact, Text.Find, Text.At, Masking.ValueStop, Masking.IsDelimiter, PassOutcome;
    OwnMarkerIsFound(a, m);
    match Find(a + m, p)
    case None =>
      same, a', b' := false, a, Redact(b, p);
      ValueUntouched(a, m, v, b, p);
      ValueUntouched(a, m, w, b, p);
    case Some(i) =>
      var q := ValueStop(a + m, i + |p|);
      if q == |a + m| {
        same, a', b' := true, (a + m)[..i + |p|] + MASK, Redact(b, p);
        ValueSwallowed(a, m, v, b, p, i);
        ValueSwallowed(a, m, w, b, p, i);
      } else {
        assert q < |a| by {
          assert forall j {:trigger (a + m)[j]} :: |a| <= j < |a + m| ==> (a + m)[j] == m[j - |a|];
        }
        var a'';
        same, a'', b' := PassTreatsAlike(a[q..], m, v, w, b, p);
        a' := (a + m)[..i + |p|] + MASK + a'';
        ValueLater(a, m, v, b, p, i, q, same, a'', b');
        ValueLater(a, m, w, b, p, i, q, same, a'', b');
      }
  }

  /** Texts that contain none of the markers. */
  ghost predicate MarkerFree(v: string, ms: seq<string>) {
    forall j :: 0 <= j < |ms| ==> Find(v, ms[j]) == None
  }

  /** The marker fold does not depend on a value behind its marker number `i`, as long as the
      passes before that one find nothing in the value. */
  lemma {:induction false} FoldIgnoresValue(a: string, i: nat, v: string, w: string, b: string, ms: seq<string>)
    requires AllMarkers(ms) && i < |ms| && Boundary(b, 0)
    requires DelimiterFree(v) && DelimiterFree(w) && MarkerFree(v, ms[..i]) && MarkerFree(w, ms[..i])
    ensures Fold(a + ms[i] + v + b, ms) == Fold(a + ms[i] + w + b, ms)
    decreases ms
  {
    hide Redact, Text.Find, Masking.IsDelimiter, IsMarker, Masking.Boundary, Masking.DelimiterFree;
    var m := ms[i];
    assert IsMarker(ms[0]) && IsMarker(m);
    MarkerNotEmpty(ms[0]);
    assert i > 0 ==> ms[..i][0] == ms[0];
    var same, a', b' := PassTreatsAlike(a, m, v, w, b, ms[0]);
    if !same {
      assert ms[1..][..i - 1] == ms[..i][1..];
      FoldIgnoresValue(a', i - 1, v, w, b', ms[1..]);
    }
  }

  predicate EndsWith(f: string, m: string) {
    |m| <= |f| && f[|f| - |m|..] == m
  }

  /** `f` ends with one of the nine markers, and `v` contains none of those that are handled
      before it. */
  ghost predicate Hides(f: string, v: string) {
    && (exists i :: 0 <= i < |MARKERS| && EndsWith(f, MARKERS[i]))
    && (forall i :: 0 <= i < |MARKERS| && EndsWith(f, MARKERS[i]) ==> MarkerFree(v, MARKERS[..i]))
  }

  /** Texts in which every value stands behind one of the nine markers and up to a boundary. */
  ghost predicate SecretText(kept: seq<string>, values: seq<string>) {
    && CutsAtBoundaries(Cuts(kept, values))
    && (forall j :: 0 <= j < |values| ==> Hides(kept[j], values[j]))
  }

  /** One value can be exchanged, behind any text. */
  lemma ExchangeOne(front: string, f: string, v: string, w: string, b: string)
    requires Hides(f, v) && Hides(f, w) && Boundary(b, 0) && DelimiterFree(v) && DelimiterFree(w)
    ensures Sanitize(front + f + v + b) == Sanitize(front + f + w + b)
  {
    hide Fold, RedactBearer, MarkerFree, Masking.IsDelimiter, Masking.Boundary, Masking.DelimiterFree, AllMarkers;
    var i :| 0 <= i < |MARKERS| && EndsWith(f, MARKERS[i]);
    var m := MARKERS[i];
    var a := front + f[..|f| - |m|];
    assert front + f == a + m;
    MarkersAreMarkers();
    FoldIgnoresValue(a, i, v, w, b, MARKERS);
  }

  /** The whole sanitizer is blind to any number of values behind its markers: texts that
      differ only in such values are sanitized to the same text. */
  lemma {:induction false} SanitizeIgnoresSecrets(
      front: string, kept: seq<string>, values: seq<string>, others: seq<string>)
    requires SecretText(kept, values) && SecretText(kept, others)
    ensures Sanitize(front + Weave(kept, values)) == Sanitize(front + Weave(kept, others))
    decreases |values|
  {
    hide Sanitize, Hides, MarkerFree, Masking.IsDelimiter;
    if values != [] {
      var tail := Weave(kept[1..], values[1..]);
      assert Boundary(tail, 0) by { WovenTail(kept, values); }
      var g := front + kept[0] + others[0];
      ExchangeOne(front, kept[0], values[0], others[0], tail);
      assert front + Weave(kept, values) == front + kept[0] + values[0] + tail;
      assert front + Weave(kept, others) == g + Weave(kept[1..], others[1..]);
      assert SecretText(kept[1..], values[1..]) && SecretText(kept[1..], others[1..]);
      SanitizeIgnoresSecrets(g, kept[1..], values[1..], others[1..]);
    }
  }
}
