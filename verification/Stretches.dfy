/** When a secret shows through: what the sanitizer makes of a stretch of text between two
    delimiters, in closed form, and from it the exact condition under which a value behind a
    marker leaves no trace. */
module Stretches {
  import opened Text
  import opened Masking
  import opened MarkerRedaction
  import opened BearerRedaction
  import opened Sanitizer

  // ---- passes work stretch by stretch ------------------------------------------

  /** A pass on text in front of a boundary and a pass on the text behind it. */
  lemma {:induction false} RedactSplits(x: string, b: string, p: string)
    requires IsMarker(p) && Boundary(b, 0)
    ensures Redact(x + b, p) == Redact(x, p) + Redact(b, p)
    decreases |x|
  {
    hide Redact, Text.Find, Text.At, Masking.ValueStop, Masking.IsDelimiter, IsMarker, Masking.Boundary;
    MarkerNotEmpty(p);
    match Find(x, p)
    case None =>
      RedactEnd(x, p);
      PassOver(x, b, p);
    case Some(i) =>
      var k := i + |p|;
      var q := ValueStop(x, k);
      FindInFront(x, b, p, i);
      StopInFront(x, b, k);
      RedactStep(x, p, i);
      RedactStep(x + b, p, i);
      RedactSplits(x[q..], b, p);
      assert (x + b)[q..] == x[q..] + b;
      assert (x + b)[..k] == x[..k];
  }

  lemma StopInFront(x: string, b: string, k: nat)
    requires k <= |x| && Boundary(b, 0)
    ensures ValueStop(x + b, k) == ValueStop(x, k)
  {
    hide Masking.IsDelimiter, Masking.ValueStop;
    ValueStopIs(x + b, k, ValueStop(x, k));
  }

  /** Empty, or ending with a delimiter. */
  predicate Closed(a: string) {
    a != "" ==> IsDelimiter(a[|a| - 1])
  }

  lemma RedactJoins(a: string, y: string, p: string)
    requires IsMarker(p) && Closed(a)
    ensures Redact(a + y, p) == Redact(a, p) + Redact(y, p)
    ensures Closed(Redact(a, p))
  {
    hide Redact, IsMarker, Masking.IsDelimiter;
    MarkerNotEmpty(p);
    EmptyStays(p);
    if a == "" {
      assert a + y == y;
    } else {
      var a0, d := a[..|a| - 1], a[|a| - 1];
      assert a == a0 + [d] && a + y == a0 + [d] + y;
      RedactAround(a0, d, y, p);
      RedactAround(a0, d, "", p);
      assert a + "" == a0 + [d] + "" == a;
    }
  }

  lemma RedactAround(x: string, d: char, y: string, p: string)
    requires IsMarker(p) && IsDelimiter(d)
    ensures Redact(x + [d] + y, p) == Redact(x, p) + [d] + Redact(y, p)
  {
    hide Redact, IsMarker, Masking.IsDelimiter;
    MarkerNotEmpty(p);
    assert x + [d] + y == x + ([d] + y);
    RedactSplits(x, [d] + y, p);
    LeadingDelimiter(d, y, p);
  }

  lemma EmptyStays(p: string)
    requires p != ""
    ensures Redact("", p) == ""
  {
  }

  /** The whole fold works stretch by stretch. */
  lemma {:induction false} FoldSplits(a: string, x: string, b: string, ms: seq<string>)
    requires AllMarkers(ms) && Closed(a) && Boundary(b, 0)
    ensures Fold(a + x + b, ms) == Fold(a, ms) + Fold(x, ms) + Fold(b, ms)
    ensures Closed(Fold(a, ms)) && Boundary(Fold(b, ms), 0)
    decreases |ms|
  {
    hide Redact, IsMarker, Closed, Masking.Boundary;
    if ms != [] {
      var p := ms[0];
      MarkerNotEmpty(p);
      assert a + x + b == a + (x + b);
      RedactJoins(a, x + b, p);
      RedactSplits(x, b, p);
      RedactKeepsBoundary(b, p);
      var a', x', b' := Redact(a, p), Redact(x, p), Redact(b, p);
      assert a' + (x' + b') == a' + x' + b';
      FoldSplits(a', x', b', ms[1..]);
    }
  }

  // ---- one stretch in closed form -----------------------------------------------

  function Brackets(n: nat): string { seq(n, _ => ']') }

  /** What `n` cuts leave behind the kept text: a mask, and a bracket of each mask that was
      taken for the end of a value. */
  function Scar(n: nat): string {
    if n == 0 then "" else MASK + Brackets(n - 1)
  }

  /** The text the passes leave of a stretch, and how many of them cut it. */
  function CutBy(x: string, ms: seq<string>): (string, nat)
    decreases |ms|
  {
    if ms == [] then (x, 0)
    else match Find(x, ms[0])
      case None => CutBy(x, ms[1..])
      case Some(i) =>
        var (f, c) := CutBy(x[..i + |ms[0]|], ms[1..]);
        (f, c + 1)
  }

  lemma NothingInBrackets(n: nat, p: string)
    requires IsMarker(p)
    ensures Find(Brackets(n), p) == None
  {
    hide Text.Find;
    forall j: nat ensures !At(Brackets(n), p, j) {
      if j < n {
        Mismatch(Brackets(n), p, j, j);
      }
    }
  }

  lemma NothingInScar(x: string, n: nat, p: string)
    requires IsMarker(p) && Find(x, p) == None
    ensures Find(x + Scar(n), p) == None
  {
    hide Text.Find, Text.At, Brackets;
    assert x + "" == x;
    if n > 0 {
      NothingInBrackets(n - 1, p);
      var s := x + MASK + Brackets(n - 1);
      assert x + Scar(n) == s;
      forall j: nat ensures !At(s, p, j) {
        if At(s, p, j) {
          AroundMask(x, Brackets(n - 1), p, j);
        }
      }
    }
  }

  /** A value in the stretch runs up to the closing bracket of the first mask. */
  lemma StopInScar(x: string, n: nat, k: nat)
    requires DelimiterFree(x) && k <= |x|
    ensures var s, q := x + Scar(n), ValueStop(x + Scar(n), k);
            s[q..] == Brackets(n)
  {
    hide Masking.ValueStop;
    var s := x + Scar(n);
    if n == 0 {
      assert s == x;
      ValueStopIs(s, k, |x|);
    } else {
      MaskBody("");
      var e := |x| + 9;
      assert forall j :: |x| <= j < e ==> s[j] == MASK[..9][j - |x|];
      assert s[e] == ']';
      ValueStopIs(s, k, e);
      assert s[e..] == Brackets(n);
    }
  }

  lemma CutOnStretch(x: string, n: nat, p: string, i: nat)
    requires IsMarker(p) && DelimiterFree(x) && Find(x, p) == Some(i)
    ensures Redact(x + Scar(n), p) == x[..i + |p|] + MASK + Brackets(n)
  {
    hide Redact, Text.Find, Text.At, Masking.ValueStop, Masking.DelimiterFree, IsMarker, Brackets, Scar;
    MarkerNotEmpty(p);
    var s, k := x + Scar(n), i + |p|;
    FindInFront(x, Scar(n), p, i);
    RedactStep(s, p, i);
    StopInScar(x, n, k);
    NothingInBrackets(n, p);
    RedactEnd(Brackets(n), p);
    assert s[..k] == x[..k];
  }

  /** One pass on a stretch: nothing found, or one more cut. */
  lemma PassOnStretch(x: string, n: nat, p: string)
    requires IsMarker(p) && DelimiterFree(x)
    ensures Redact(x + Scar(n), p) ==
            match Find(x, p) case None => x + Scar(n) case Some(i) => x[..i + |p|] + Scar(n + 1)
  {
    hide Redact, Text.Find, Masking.DelimiterFree, IsMarker, Brackets;
    MarkerNotEmpty(p);
    match Find(x, p)
    case None =>
      NothingInScar(x, n, p);
      RedactEnd(x + Scar(n), p);
    case Some(i) =>
      CutOnStretch(x, n, p, i);
      var f := x[..i + |p|];
      assert f + MASK + Brackets(n) == f + (MASK + Brackets(n));
  }

  /** The fold on a delimiter-free stretch: kept text and scar. */
  lemma {:induction false} FoldOnStretch(x: string, n: nat, ms: seq<string>)
    requires AllMarkers(ms) && DelimiterFree(x)
    ensures var (f, c) := CutBy(x, ms); Fold(x + Scar(n), ms) == f + Scar(n + c)
    decreases |ms|
  {
    hide Redact, Text.Find, IsMarker, Scar;
    if ms != [] {
      PassOnStretch(x, n, ms[0]);
      match Find(x, ms[0])
      case None => FoldOnStretch(x, n, ms[1..]);
      case Some(i) => FoldOnStretch(x[..i + |ms[0]|], n + 1, ms[1..]);
    }
  }

  // ---- the bearer pass and brackets ---------------------------------------------

  /** A bracket ends every credential and starts none. */
  lemma CredentialInFront(y: string, t: string, k: nat)
    requires k <= |y| && t != "" && t[0] == ']'
    ensures CredentialStart(y + t, k) == CredentialStart(y, k)
  {
    hide BlankStop, Text.At, Text.LowerAll;
    var s := y + t;
    var b := BlankStop(y, k);
    assert s[|y|] == ']';
    BlankStopIs(s, k, b);
    LowerConcat(y, t);
    var e := b + |BEARER|;
    if e <= |y| {
      AtPrefix(LowerAll(y), LowerAll(t), BEARER, b);
      BlankStopIs(s, e, BlankStop(y, e));
    } else {
      NoBearerAcross(y, t, b);
    }
  }

  lemma NoBearerAcross(y: string, t: string, b: nat)
    requires b <= |y| < b + |BEARER| && t != "" && t[0] == ']'
    ensures !At(LowerAll(y + t), BEARER, b) && !At(LowerAll(y), BEARER, b)
  {
    Mismatch(LowerAll(y + t), BEARER, b, |y|);
  }

  /** Where the first header is, across a bracket. */
  lemma HeaderAcross(y: string, t: string)
    requires t != "" && t[0] == ']' && Find(LowerAll(y), HEADER) == None
    ensures Find(LowerAll(y + t), HEADER) ==
            match Find(LowerAll(t), HEADER) case None => None case Some(i) => Some(|y| + i)
  {
    hide Text.Find, Text.At, Text.LowerAll;
    LowerConcat(y, t);
    var u, w := LowerAll(y), LowerAll(t);
    forall j: nat ensures At(u + w, HEADER, j) <==> |y| <= j && At(w, HEADER, j - |y|) {
      if |y| <= j {
        AtTail(u, w, HEADER, j);
      } else if j + |HEADER| <= |y| {
        AtPrefix(u, w, HEADER, j);
      } else {
        NoHeaderAcross(y, t, j);
      }
    }
    match Find(w, HEADER)
    case None => assert Find(u + w, HEADER) == None;
    case Some(i) => FindIs(u + w, HEADER, |y| + i);
  }

  lemma NoHeaderAcross(y: string, t: string, j: nat)
    requires j <= |y| < j + |HEADER| && t != "" && t[0] == ']'
    ensures !At(LowerAll(y) + LowerAll(t), HEADER, j)
  {
    Mismatch(LowerAll(y) + LowerAll(t), HEADER, j, |y|);
  }

  /** If the first header of `y + t` is that of `t`, then `y` is passed over. */
  lemma {:induction false} BearerShift(y: string, t: string)
    requires Find(LowerAll(y + t), HEADER) ==
             match Find(LowerAll(t), HEADER) case None => None case Some(i) => Some(|y| + i)
    ensures RedactBearer(y + t) == y + RedactBearer(t)
  {
    hide RedactBearer, Text.Find, Text.At, Text.LowerAll, CredentialStart, Masking.ValueStop;
    match Find(LowerAll(t), HEADER)
    case None =>
      BearerEnd(t);
      BearerEnd(y + t);
    case Some(i) =>
      HeaderFits(t, i);
      assert (y + t)[|y|..] == t;
      CredentialSuffix(y + t, |y|, i + |HEADER|);
      match CredentialStart(t, i + |HEADER|)
      case None => ShiftSkip(y, t, i);
      case Some(h) => ShiftCut(y, t, i, h);
  }

  lemma {:induction false} ShiftSkip(y: string, t: string, i: nat)
    requires Find(LowerAll(t), HEADER) == Some(i) && Find(LowerAll(y + t), HEADER) == Some(|y| + i)
    requires CredentialStart(t, i + |HEADER|) == None && CredentialStart(y + t, |y| + i + |HEADER|) == None
    ensures RedactBearer(y + t) == y + RedactBearer(t)
  {
    hide RedactBearer, Text.Find, Text.At, Text.LowerAll, CredentialStart, Masking.ValueStop;
    var k := i + |HEADER|;
    BearerSkip(t, i);
    BearerSkip(y + t, |y| + i);
    assert (y + t)[..|y| + k] == y + t[..k];
    assert (y + t)[|y| + k..] == t[k..];
  }

  lemma {:induction false} ShiftCut(y: string, t: string, i: nat, h: nat)
    requires Find(LowerAll(t), HEADER) == Some(i) && Find(LowerAll(y + t), HEADER) == Some(|y| + i)
    requires CredentialStart(t, i + |HEADER|) == Some(h) && CredentialStart(y + t, |y| + i + |HEADER|) == Some(|y| + h)
    ensures RedactBearer(y + t) == y + RedactBearer(t)
  {
    hide RedactBearer, Text.Find, Text.At, Text.LowerAll, CredentialStart, Masking.ValueStop;
    BearerCut(t, i, h);
    BearerCut(y + t, |y| + i, |y| + h);
    ValueStopBehind(y, t, h);
    var q := ValueStop(t, h);
    assert (y + t)[..|y| + h] == y + t[..h];
    assert (y + t)[|y| + q..] == t[q..];
  }

  /** The bearer pass works on the text in front of a bracket and on the text from it on. */
  lemma {:induction false} BearerSplits(y: string, t: string)
    requires t != "" && t[0] == ']'
    ensures RedactBearer(y + t) == RedactBearer(y) + RedactBearer(t)
    decreases |y|
  {
    hide RedactBearer, Text.Find, Text.At, Text.LowerAll, CredentialStart, Masking.ValueStop;
    match Find(LowerAll(y), HEADER)
    case None =>
      BearerEnd(y);
      HeaderAcross(y, t);
      BearerShift(y, t);
    case Some(i) =>
      var k := i + |HEADER|;
      HeaderFits(y, i);
      match CredentialStart(y, k)
      case None =>
        SplitSkip(y, t, i);
        BearerSplits(y[k..], t);
      case Some(h) =>
        SplitCut(y, t, i, h);
        BearerSplits(y[ValueStop(y, h)..], t);
  }

  lemma {:induction false} SplitSkip(y: string, t: string, i: nat)
    requires t != "" && t[0] == ']' && Find(LowerAll(y), HEADER) == Some(i)
    requires i + |HEADER| <= |y| && CredentialStart(y, i + |HEADER|) == None
    ensures RedactBearer(y) == y[..i + |HEADER|] + RedactBearer(y[i + |HEADER|..])
    ensures RedactBearer(y + t) == y[..i + |HEADER|] + RedactBearer(y[i + |HEADER|..] + t)
  {
    hide RedactBearer, Text.Find, Text.At, Text.LowerAll, CredentialStart, Masking.ValueStop;
    var s, k := y + t, i + |HEADER|;
    LowerConcat(y, t);
    FindInFront(LowerAll(y), LowerAll(t), HEADER, i);
    CredentialInFront(y, t, k);
    BearerSkip(y, i);
    BearerSkip(s, i);
    assert s[..k] == y[..k] && s[k..] == y[k..] + t;
  }

  lemma {:induction false} SplitCut(y: string, t: string, i: nat, h: nat)
    requires t != "" && t[0] == ']' && Find(LowerAll(y), HEADER) == Some(i)
    requires i + |HEADER| <= |y| && CredentialStart(y, i + |HEADER|) == Some(h)
    ensures RedactBearer(y) == y[..h] + MASK + RedactBearer(y[ValueStop(y, h)..])
    ensures RedactBearer(y + t) == y[..h] + MASK + RedactBearer(y[ValueStop(y, h)..] + t)
  {
    hide RedactBearer, Text.Find, Text.At, Text.LowerAll, CredentialStart, Masking.ValueStop;
    var s, k := y + t, i + |HEADER|;
    LowerConcat(y, t);
    FindInFront(LowerAll(y), LowerAll(t), HEADER, i);
    CredentialInFront(y, t, k);
    BearerCut(y, i, h);
    BearerCut(s, i, h);
    BracketBoundary(t);
    StopInFront(y, t, h);
    var q := ValueStop(y, h);
    assert s[..h] == y[..h] && s[q..] == y[q..] + t;
  }

  lemma BracketBoundary(t: string)
    requires t != "" && t[0] == ']'
    ensures Boundary(t, 0)
  {
  }

  lemma BracketHasNoHeader()
    ensures Find(LowerAll("]"), HEADER) == None
  {
  }

  /** Brackets are passed over one by one. */
  lemma {:induction false} BearerKeepsBrackets(y: string, n: nat, b: string)
    requires n > 0
    ensures RedactBearer(y + Brackets(n) + b) == RedactBearer(y) + Brackets(n) + RedactBearer(b)
    decreases n
  {
    hide RedactBearer, Text.Find;
    var t := Brackets(n) + b;
    assert y + Brackets(n) + b == y + t;
    BearerSplits(y, t);
    BracketHasNoHeader();
    BearerEnd("]");
    if n == 1 {
      assert t == "]" + b && Brackets(n) == "]";
      BracketInFront(b);
    } else {
      assert Brackets(n) == "]" + Brackets(n - 1);
      assert t == "]" + Brackets(n - 1) + b;
      BearerKeepsBrackets("]", n - 1, b);
    }
  }

  lemma BracketInFront(b: string)
    ensures RedactBearer("]" + b) == "]" + RedactBearer(b)
  {
    hide RedactBearer, Text.Find, Text.At, Text.LowerAll;
    LowerConcat("]", b);
    var u, w := LowerAll("]"), LowerAll(b);
    forall j: nat ensures At(u + w, HEADER, j) <==> 1 <= j && At(w, HEADER, j - 1) {
      if j == 0 {
        NoHeaderAcross("", "]" + b, 0);
        assert LowerAll("") + LowerAll("]" + b) == LowerAll("]" + b);
      } else {
        AtTail(u, w, HEADER, j);
      }
    }
    match Find(w, HEADER) {
      case None => assert Find(u + w, HEADER) == None;
      case Some(i) => FindIs(u + w, HEADER, 1 + i);
    }
    BearerShift("]", b);
  }

  // ---- the sanitizer on one stretch ------------------------------------------------

  /** The sanitizer on a stretch that is cut: what surrounds the scar's brackets does not depend
      on their number. */
  lemma SanitizedStretch(a: string, x: string, b: string)
    requires Closed(a) && DelimiterFree(x) && Boundary(b, 0) && CutBy(x, MARKERS).1 > 0
    ensures AllMarkers(MARKERS)
    ensures var (f, c) := CutBy(x, MARKERS);
            Sanitize(a + x + b) ==
            RedactBearer(Fold(a, MARKERS) + f + MASK[..9]) + Brackets(c) + RedactBearer(Fold(b, MARKERS))
  {
    hide Fold, RedactBearer, CutBy, Closed, Masking.DelimiterFree, Masking.Boundary, AllMarkers, Brackets;
    MarkersAreMarkers();
    FoldSplits(a, x, b, MARKERS);
    FoldOnStretch(x, 0, MARKERS);
    assert x + Scar(0) == x;
    var (f, c) := CutBy(x, MARKERS);
    var A, B := Fold(a, MARKERS), Fold(b, MARKERS);
    ScarIsBrackets(c);
    assert A + (f + (MASK[..9] + Brackets(c))) + B == A + f + MASK[..9] + Brackets(c) + B;
    BearerKeepsBrackets(A + f + MASK[..9], c, B);
  }

  lemma ScarIsBrackets(c: nat)
    requires c > 0
    ensures Scar(c) == MASK[..9] + Brackets(c)
  {
  }

  /** Two stretches that are cut down to the same text are sanitized alike exactly when they are
      cut equally often. */
  lemma AlikeWhenCutAlike(a: string, x: string, y: string, b: string)
    requires Closed(a) && DelimiterFree(x) && DelimiterFree(y) && Boundary(b, 0)
    requires CutBy(x, MARKERS).0 == CutBy(y, MARKERS).0
    requires CutBy(x, MARKERS).1 > 0 && CutBy(y, MARKERS).1 > 0
    ensures Sanitize(a + x + b) == Sanitize(a + y + b) <==> CutBy(x, MARKERS).1 == CutBy(y, MARKERS).1
  {
    hide Fold, RedactBearer, CutBy, Closed, Masking.DelimiterFree, Masking.Boundary, Sanitize, AllMarkers;
    SanitizedStretch(a, x, b);
    SanitizedStretch(a, y, b);
    var c, e := CutBy(x, MARKERS).1, CutBy(y, MARKERS).1;
    assert |Brackets(c)| == c && |Brackets(e)| == e;
  }

  // ---- a value behind a marker ------------------------------------------------------

  /** The first of the markers that occurs in `h`, a text that ends with a marker, has number `i`. */
  ghost predicate FirstIn(h: string, ms: seq<string>, i: nat) {
    && h != "" && h[|h| - 1] == '='
    && i < |ms| && Find(h, ms[i]) != None
    && (forall j :: 0 <= j < i ==> Find(h, ms[j]) == None)
  }

  lemma {:induction false} CutNothing(x: string, ms: seq<string>)
    requires MarkerFree(x, ms)
    ensures CutBy(x, ms) == (x, 0)
    decreases |ms|
  {
    hide Text.Find;
    if ms != [] {
      assert Find(x, ms[0]) == None;
      CutNothing(x, ms[1..]);
    }
  }

  /** Occurrences behind text that ends with `=` and has none. */
  lemma FindBehindHead(h: string, v: string, p: string)
    requires IsMarker(p) && h != "" && h[|h| - 1] == '=' && Find(h, p) == None
    ensures Find(h + v, p) == match Find(v, p) case None => None case Some(k) => Some(|h| + k)
  {
    hide Text.Find, Text.At;
    match Find(v, p)
    case None => NoStraddle(h, v, p);
    case Some(k) =>
      AtTail(h, v, p, |h| + k);
      forall j: nat | j < |h| + k ensures !At(h + v, p, j) {
        if |h| <= j {
          AtTail(h, v, p, j);
        } else if j + |p| <= |h| {
          AtPrefix(h, v, p, j);
        } else {
          NotAcross(h + v, p, j, |h| - 1);
        }
      }
      FindIs(h + v, p, |h| + k);
  }

  /** A value behind `h` leaves what is kept of `h` alone, and adds a cut exactly if it contains
      a marker that is handled before all those in `h`. */
  lemma {:induction false} CutLikeHead(h: string, v: string, ms: seq<string>, i: nat)
    requires AllMarkers(ms) && FirstIn(h, ms, i)
    ensures CutBy(h + v, ms).0 == CutBy(h, ms).0 && CutBy(h + v, ms).1 >= CutBy(h, ms).1 >= 1
    ensures CutBy(h + v, ms).1 == CutBy(h, ms).1 <==> MarkerFree(v, ms[..i])
    decreases |ms|
  {
    hide Text.Find, IsMarker;
    var p := ms[0];
    if i == 0 {
      var k := Find(h, p).value;
      FindInFront(h, v, p, k);
      assert (h + v)[..k + |p|] == h[..k + |p|];
      assert CutBy(h + v, ms) == CutBy(h, ms);
      assert CutBy(h, ms).1 == CutBy(h[..k + |p|], ms[1..]).1 + 1;
    } else {
      FindBehindHead(h, v, p);
      assert FirstIn(h, ms[1..], i - 1);
      assert ms[..i] == [p] + ms[1..][..i - 1];
      FreeOfBoth(v, p, ms[1..][..i - 1]);
      match Find(v, p)
      case None => CutLikeHead(h, v, ms[1..], i - 1);
      case Some(k) =>
        assert (h + v)[..|h| + k + |p|] == h + v[..k + |p|];
        CutLikeHead(h, v[..k + |p|], ms[1..], i - 1);
    }
  }

  lemma FreeOfBoth(v: string, p: string, ms: seq<string>)
    ensures MarkerFree(v, [p] + ms) <==> Find(v, p) == None && MarkerFree(v, ms)
  {
    hide Text.Find;
    var all := [p] + ms;
    assert all[0] == p && all[1..] == ms;
    assert forall j :: 0 < j < |all| ==> all[j] == ms[j - 1];
    assert forall j :: 0 <= j < |ms| ==> ms[j] == all[1..][j];
  }

  // ---- the nine markers --------------------------------------------------------------

  /** Markers that differ at the same distance from their ends. */
  ghost predicate DifferAt(m: string, p: string, d: nat) {
    1 <= d <= |m| && d <= |p| && m[|m| - d] != p[|p| - d]
  }

  /** No marker ends another one. */
  lemma MarkersDiffer(i: nat, j: nat) returns (d: nat)
    requires i < |MARKERS| && j < |MARKERS| && i != j
    ensures DifferAt(MARKERS[i], MARKERS[j], d)
  {
    var m, p := MARKERS[i], MARKERS[j];
    if m[|m| - 2] != p[|p| - 2] {
      d := 2;
    } else if m[|m| - 2] == 'e' {
      d := if i == 3 || j == 3 then 10 else 11;
    } else {
      d := if m[|m| - 4] != p[|p| - 4] then 4 else if i == 0 || j == 0 then 5 else 6;
    }
  }

  /** Behind marker-free text a marker is the only one. */
  lemma FirstInMarker(u: string, i: nat)
    requires MarkerFree(u, MARKERS) && i < |MARKERS|
    ensures FirstIn(u + MARKERS[i], MARKERS, i)
  {
    hide Text.Find, IsMarker, DifferAt, MarkerFree;
    MarkersAreMarkers();
    var ms := MARKERS;
    assert ms == MARKERS;
    OwnMarkerIsFound(u, ms[i]);
    EndsWithEquals(ms[i]);
    var h := u + ms[i];
    assert h[|h| - 1] == ms[i][|ms[i]| - 1];
    forall j | 0 <= j < i ensures Find(u + ms[i], ms[j]) == None {
      assert Find(u, ms[j]) == None by { assert MarkerFree(u, ms); OneOfThem(u, ms, j); }
      var d := MarkersDiffer(i, j);
      OtherIsNot(u, ms[i], ms[j], d);
    }
  }

  lemma OneOfThem(u: string, ms: seq<string>, j: nat)
    requires MarkerFree(u, ms) && j < |ms|
    ensures Find(u, ms[j]) == None
  {
  }

  lemma EndsWithEquals(m: string)
    requires IsMarker(m)
    ensures m != "" && m[|m| - 1] == '='
  {
  }

  lemma OtherIsNot(u: string, m: string, p: string, d: nat)
    requires IsMarker(m) && IsMarker(p) && Find(u, p) == None && DifferAt(m, p, d)
    ensures Find(u + m, p) == None
  {
    hide Text.Find;
    var s := u + m;
    forall j: nat ensures !At(s, p, j) {
      if j + |p| <= |u| {
        AtPrefix(u, m, p, j);
      } else if j + |p| < |s| {
        Mismatch(s, p, j, j + |p| - 1);
      } else if j + |p| == |s| {
        assert s[|s| - d] == m[|m| - d];
        Mismatch(s, p, j, |s| - d);
      }
    }
  }

  // ---- the exact condition ------------------------------------------------------------

  /** In every surroundings: `a` runs up to the last delimiter in front of a marker, `u` from there
      to the marker. A value behind the marker leaves no trace if and only if it contains none of
      the markers handled before the first one that occurs in `u` and the marker together. */
  lemma ValueLeavesNoTrace(a: string, u: string, m: string, v: string, b: string, first: nat)
    requires Closed(a) && DelimiterFree(u) && m in MARKERS && FirstIn(u + m, MARKERS, first)
    requires DelimiterFree(v) && Boundary(b, 0)
    ensures Sanitize(a + u + m + v + b) == Sanitize(a + u + m + b)
            <==> forall j :: 0 <= j < first ==> Find(v, MARKERS[j]) == None
  {
    hide Sanitize, CutBy, Text.Find, Closed, Masking.Boundary, Masking.DelimiterFree, IsMarker, FirstIn, MarkerFree;
    MarkersAreMarkers();
    var ms := MARKERS;
    assert ms == MARKERS && IsMarker(m);
    var h := u + m;
    CutLikeHead(h, v, ms, first);
    MarkerIsPlain(m);
    PlainConcat(u, m);
    PlainConcat(h, v);
    AlikeWhenCutAlike(a, h + v, h, b);
    assert a + (h + v) + b == a + u + m + v + b;
    assert a + h + b == a + u + m + b;
    assert first < |ms| by { FirstIsOne(h, ms, first); }
    FreeOfFirst(v, ms, first);
  }

  lemma FirstIsOne(h: string, ms: seq<string>, i: nat)
    requires FirstIn(h, ms, i)
    ensures i < |ms|
  {
  }

  /** In particular, behind text without a marker the value must be free of the markers handled
      before its own. */
  lemma OwnValueLeavesNoTrace(a: string, u: string, i: nat, v: string, b: string)
    requires Closed(a) && DelimiterFree(u) && MarkerFree(u, MARKERS) && i < |MARKERS|
    requires DelimiterFree(v) && Boundary(b, 0)
    ensures Sanitize(a + u + MARKERS[i] + v + b) == Sanitize(a + u + MARKERS[i] + b)
            <==> forall j :: 0 <= j < i ==> Find(v, MARKERS[j]) == None
  {
    hide Sanitize, Text.Find, Closed, Masking.Boundary, FirstIn, MarkerFree, Masking.DelimiterFree;
    FirstInMarker(u, i);
    ValueLeavesNoTrace(a, u, MARKERS[i], v, b, i);
  }

  lemma PlainConcat(a: string, b: string)
    requires DelimiterFree(a) && DelimiterFree(b)
    ensures DelimiterFree(a + b)
  {
    hide Masking.IsDelimiter;
  }

  lemma MarkerIsPlain(m: string)
    requires IsMarker(m)
    ensures DelimiterFree(m)
  {
  }

  lemma FreeOfFirst(v: string, ms: seq<string>, i: nat)
    requires i <= |ms|
    ensures MarkerFree(v, ms[..i]) <==> forall j :: 0 <= j < i ==> Find(v, ms[j]) == None
  {
    hide Text.Find;
    assert forall j :: 0 <= j < i ==> ms[..i][j] == ms[j];
  }

  /** A value that shows through: the account key inside the signature is masked first, and the
      bracket of that mask stays. */
  lemma InnerMarkerShows()
    ensures Sanitize("sig=AccountKey=x") != Sanitize("sig=x")
  {
    hide Sanitize, Text.Find, IsMarker;
    var inner := "AccountKey=x";
    NoMarkerIn("");
    OwnValueLeavesNoTrace("", "", 2, inner, "");
    OwnValueLeavesNoTrace("", "", 2, "x", "");
    assert "" + "" + MARKERS[2] + inner + "" == "sig=AccountKey=x";
    assert "" + "" + MARKERS[2] + "x" + "" == "sig=x";
    NoMarkerIn("x");
    assert inner[0..11] == MARKERS[0];
    FindIs(inner, MARKERS[0], 0);
  }

  lemma NoMarkerIn(v: string)
    requires |v| <= 1
    ensures MarkerFree(v, MARKERS)
    ensures DelimiterFree("AccountKey=x")
  {
  }
}
