/** Bearer credentials: exactly when the pass takes an announced credential, what the whole
    sanitizer leaves of it, and the texts in which it survives. */
module Credentials {
  import opened Text
  import opened Masking
  import opened MarkerRedaction
  import opened BearerRedaction
  import opened Sanitizer
  import opened Stretches

  /** The first credential the pass reaches in `f` starts at the end of `f`. */
  predicate Reaches(f: string)
    decreases |f|
  {
    match Find(LowerAll(f), HEADER)
    case None => false
    case Some(i) =>
      var k := i + |HEADER|;
      match CredentialStart(f, k)
      case None => Reaches(f[k..])
      case Some(h) => h == |f|
  }

  /** What follows a fragment starts a credential: it is not one more blank. */
  predicate Starts(v: string, next: string) {
    v + next != "" ==> !IsBlank((v + next)[0])
  }

  lemma {:induction false} ReachesStep(f: string, i: nat)
    requires Find(LowerAll(f), HEADER) == Some(i)
    ensures i + |HEADER| <= |f|
    ensures Reaches(f) <==>
            match CredentialStart(f, i + |HEADER|)
            case None => Reaches(f[i + |HEADER|..])
            case Some(h) => h == |f|
  {
    hide Text.Find, CredentialStart, Text.At, Text.LowerAll, Reaches;
    HeaderFits(f, i);
    match CredentialStart(f, i + |HEADER|)
    case None => ReachesSkip(f, i);
    case Some(h) => ReachesCut(f, i, h);
  }

  lemma {:induction false} ReachesSkip(f: string, i: nat)
    requires Find(LowerAll(f), HEADER) == Some(i) && CredentialStart(f, i + |HEADER|) == None
    ensures Reaches(f) == Reaches(f[i + |HEADER|..])
  {
    hide Text.Find, CredentialStart;
  }

  lemma {:induction false} ReachesCut(f: string, i: nat, h: nat)
    requires Find(LowerAll(f), HEADER) == Some(i) && CredentialStart(f, i + |HEADER|) == Some(h)
    ensures Reaches(f) <==> h == |f|
  {
    hide Text.Find, CredentialStart;
  }

  lemma {:induction false} ReachesHeader(f: string)
    requires Reaches(f)
    ensures Find(LowerAll(f), HEADER) != None && f != ""
  {
    hide Text.Find, CredentialStart;
  }

  /** A header in front of another one announces the same, whatever follows. */
  lemma CredentialBeforeHeader(f: string, t: string, k: nat, p: nat)
    requires k <= p && At(LowerAll(f), HEADER, p)
    ensures k <= |f| && CredentialStart(f + t, k) == CredentialStart(f, k)
  {
    hide BlankStop, Text.LowerAll, IsBlank, Text.At;
    HeaderFits(f, p);
    HeaderIsNotBlank(f, p);
    var b := BlankStop(f, k);
    BlankStopIs(f + t, k, b);
    LowerConcat(f, t);
    var e := b + |BEARER|;
    AtPrefix(LowerAll(f), LowerAll(t), BEARER, b);
    BlankStopIs(f + t, e, BlankStop(f, e));
  }

  lemma HeaderIsNotBlank(f: string, p: nat)
    requires At(LowerAll(f), HEADER, p)
    ensures p + |HEADER| <= |f| && !IsBlank(f[p]) && !IsBlank(f[p + 13])
  {
    AtChars(LowerAll(f), HEADER, p);
    assert LowerAll(f)[p] == 'a' && LowerAll(f)[p + 13] == ':';
  }

  // ---- whether the pass takes what follows ----------------------------------------

  /** At the end of `f` the pass is inside a credential: it takes the text that follows, up to
      the next delimiter. */
  predicate Taken(f: string)
    decreases |f|
  {
    match Find(LowerAll(f), HEADER)
    case None => false
    case Some(i) =>
      var k := i + |HEADER|;
      match CredentialStart(f, k)
      case None => Taken(f[k..])
      case Some(h) => var q := ValueStop(f, h); q == |f| || Taken(f[q..])
  }

  lemma {:induction false} TakenHeader(f: string)
    requires Taken(f)
    ensures Find(LowerAll(f), HEADER) != None
  {
    hide Text.Find, CredentialStart, Masking.ValueStop;
  }

  lemma {:induction false} TakenSkip(f: string, i: nat)
    requires Find(LowerAll(f), HEADER) == Some(i) && CredentialStart(f, i + |HEADER|) == None
    ensures Taken(f) == Taken(f[i + |HEADER|..])
  {
    hide Text.Find, CredentialStart, Masking.ValueStop;
  }

  lemma {:induction false} TakenCut(f: string, i: nat, h: nat)
    requires Find(LowerAll(f), HEADER) == Some(i) && CredentialStart(f, i + |HEADER|) == Some(h)
    ensures Taken(f) <==> ValueStop(f, h) == |f| || Taken(f[ValueStop(f, h)..])
  {
    hide Text.Find, CredentialStart, Masking.ValueStop;
  }

  /** A text the pass reaches through is taken, and kept but for the mask behind it. */
  lemma {:induction false} ReachesIsTaken(f: string)
    requires Reaches(f)
    ensures Taken(f) && RedactBearer(f) == f + MASK
    decreases |f|
  {
    hide Reaches, Taken, RedactBearer, CredentialStart, Text.Find, Text.At, Text.LowerAll, Masking.ValueStop;
    ReachesHeader(f);
    var i := Find(LowerAll(f), HEADER).value;
    ReachesStep(f, i);
    var k := i + |HEADER|;
    match CredentialStart(f, k)
    case None =>
      TakenSkip(f, i);
      BearerSkip(f, i);
      ReachesIsTaken(f[k..]);
      assert f[..k] + (f[k..] + MASK) == f + MASK;
    case Some(h) =>
      TakenCut(f, i, h);
      BearerCut(f, i, h);
      NothingBehind(f);
  }

  lemma {:induction false} NothingBehind(f: string)
    ensures ValueStop(f, |f|) == |f| && RedactBearer(f[|f|..]) == "" && f[..|f|] + MASK + "" == f + MASK
  {
    hide RedactBearer;
    assert f[|f|..] == "" && f[..|f|] + MASK + "" == f + MASK;
    EmptyHasNoHeader();
    BearerEnd("");
  }

  lemma EmptyHasNoHeader()
    ensures Find(LowerAll(""), HEADER) == None
  {
  }

  /** The first header of `f` announces the same in a longer text. */
  lemma SkippedStays(f: string, t: string, i: nat)
    requires Find(LowerAll(f), HEADER) == Some(i) && i + |HEADER| <= |f|
    requires Find(LowerAll(f[i + |HEADER|..]), HEADER) != None
    ensures CredentialStart(f + t, i + |HEADER|) == CredentialStart(f, i + |HEADER|)
  {
    hide CredentialStart, Text.Find, Text.At, Text.LowerAll;
    var k := i + |HEADER|;
    var j := Find(LowerAll(f[k..]), HEADER).value;
    LowerSuffix(f, k);
    AtSuffix(LowerAll(f), k, HEADER, j);
    CredentialBeforeHeader(f, t, k, k + j);
  }

  /** If the pass is inside a credential at the end of `f`, it takes `v` along. */
  lemma {:induction false} TakenStep(f: string, v: string, t: string)
    requires Taken(f) && DelimiterFree(v) && Boundary(t, 0) && Starts(v, t)
    ensures RedactBearer(f + v + t) == RedactBearer(f) + RedactBearer(t)
    decreases |f|
  {
    hide Taken, RedactBearer, CredentialStart, Text.Find, Text.At, Text.LowerAll, Masking.ValueStop,
      Masking.DelimiterFree, Masking.Boundary, Starts, IsBlank;
    TakenHeader(f);
    var i := Find(LowerAll(f), HEADER).value;
    HeaderFits(f, i);
    var k := i + |HEADER|;
    match CredentialStart(f, k)
    case None =>
      TakenSkip(f, i);
      TakenHeader(f[k..]);
      StepOverSkip(f, v, t, i);
      TakenStep(f[k..], v, t);
    case Some(h) =>
      TakenCut(f, i, h);
      var q := ValueStop(f, h);
      if q == |f| {
        StepIntoValue(f, v, t, i, h);
      } else {
        TakenHeader(f[q..]);
        StepOverCut(f, v + t, i, h);
        assert f + v + t == f + (v + t) && f[q..] + (v + t) == f[q..] + v + t;
        TakenStep(f[q..], v, t);
      }
  }

  lemma {:induction false} StepOverSkip(f: string, v: string, t: string, i: nat)
    requires Find(LowerAll(f), HEADER) == Some(i) && i + |HEADER| <= |f|
    requires CredentialStart(f, i + |HEADER|) == None && Find(LowerAll(f[i + |HEADER|..]), HEADER) != None
    ensures RedactBearer(f) == f[..i + |HEADER|] + RedactBearer(f[i + |HEADER|..])
    ensures RedactBearer(f + v + t) == f[..i + |HEADER|] + RedactBearer(f[i + |HEADER|..] + v + t)
  {
    hide RedactBearer, CredentialStart, Text.Find, Text.At, Text.LowerAll, Masking.ValueStop;
    var s, k := f + v + t, i + |HEADER|;
    assert s == f + (v + t);
    LowerConcat(f, v + t);
    FindInFront(LowerAll(f), LowerAll(v + t), HEADER, i);
    SkippedStays(f, v + t, i);
    BearerSkip(f, i);
    BearerSkip(s, i);
    assert s[..k] == f[..k] && s[k..] == f[k..] + v + t;
  }

  /** A cut inside `f` is made alike whatever follows. */
  lemma {:induction false} StepOverCut(f: string, x: string, i: nat, h: nat)
    requires Find(LowerAll(f), HEADER) == Some(i) && i + |HEADER| <= |f|
    requires CredentialStart(f, i + |HEADER|) == Some(h) && ValueStop(f, h) < |f|
    ensures RedactBearer(f) == f[..h] + MASK + RedactBearer(f[ValueStop(f, h)..])
    ensures RedactBearer(f + x) == f[..h] + MASK + RedactBearer(f[ValueStop(f, h)..] + x)
  {
    hide RedactBearer, CredentialStart, Text.Find, Text.At, Text.LowerAll, Masking.ValueStop, IsBlank;
    var s, k, q := f + x, i + |HEADER|, ValueStop(f, h);
    LowerConcat(f, x);
    FindInFront(LowerAll(f), LowerAll(x), HEADER, i);
    CredentialChars(f, k, h);
    assert f[..h] == s[..h] && s[h] == f[h];
    CredentialTransfer(f, s, k, h);
    ValueStaysIn(f, x, h);
    BearerCut(f, i, h);
    BearerCut(s, i, h);
    assert s[q..] == f[q..] + x;
  }

  lemma {:induction false} StepIntoValue(f: string, v: string, t: string, i: nat, h: nat)
    requires Find(LowerAll(f), HEADER) == Some(i) && i + |HEADER| <= |f|
    requires CredentialStart(f, i + |HEADER|) == Some(h) && ValueStop(f, h) == |f|
    requires DelimiterFree(v) && Boundary(t, 0) && Starts(v, t)
    ensures RedactBearer(f + v + t) == RedactBearer(f) + RedactBearer(t)
  {
    hide RedactBearer, CredentialStart, Text.Find, Text.At, Text.LowerAll, Masking.ValueStop,
      Masking.DelimiterFree, Masking.Boundary, IsBlank;
    var s, k := f + v + t, i + |HEADER|;
    assert s == f + (v + t);
    LowerConcat(f, v + t);
    FindInFront(LowerAll(f), LowerAll(v + t), HEADER, i);
    CredentialChars(f, k, h);
    assert f[..h] == s[..h];
    CredentialTransfer(f, s, k, h);
    ValueRunsOn(f, v, t, h);
    BearerCut(f, i, h);
    BearerCut(s, i, h);
    assert s[|f| + |v|..] == t;
    NothingBehind(f);
    assert f[..h] + MASK + "" == f[..h] + MASK;
  }

  /** The pass takes the value behind a fragment it reaches through. */
  lemma BearerStep(f: string, v: string, t: string)
    requires Reaches(f) && DelimiterFree(v) && Boundary(t, 0) && Starts(v, t)
    ensures RedactBearer(f + v + t) == f + MASK + RedactBearer(t)
  {
    hide Reaches, Taken, RedactBearer, Masking.DelimiterFree, Masking.Boundary, Starts;
    ReachesIsTaken(f);
    TakenStep(f, v, t);
  }

  // ---- an announced credential that is not taken ------------------------------------

  /** `f` ends with a header that announces a credential, at position `p`. */
  predicate AnnouncedAt(f: string, p: nat) {
    At(LowerAll(f), HEADER, p) && CredentialStart(f, p + |HEADER|) == Some(|f|)
  }

  lemma AnnouncedEnd(f: string, p: nat)
    requires AnnouncedAt(f, p)
    ensures p + |HEADER| < |f| && IsBlank(f[|f| - 1])
    ensures forall q {:trigger f[q]} :: p + |HEADER| <= q < |f| ==> f[q] != ':'
  {
    hide CredentialStart, Text.At, Text.LowerAll, IsBlank;
    HeaderFits(f, p);
    CredentialChars(f, p + |HEADER|, |f|);
  }

  /** Two headers do not overlap. */
  lemma HeadersApart(f: string, i: nat, p: nat)
    requires At(LowerAll(f), HEADER, i) && At(LowerAll(f), HEADER, p) && i < p
    ensures i + |HEADER| <= p
  {
    hide Text.At, Text.LowerAll;
    HeaderText(f, i);
    HeaderText(f, p);
    var c := i + |HEADER| - 1;
    assert f[c] == ':';
  }

  /** What is left of the announcement when the first part of `f` is gone. */
  lemma AnnouncedSuffix(f: string, p: nat, q: nat)
    requires AnnouncedAt(f, p) && q <= p
    ensures AnnouncedAt(f[q..], p - q)
  {
    hide CredentialStart, Text.At, Text.LowerAll;
    AnnouncedEnd(f, p);
    LowerSuffix(f, q);
    AtSuffix(LowerAll(f), q, HEADER, p - q);
    CredentialSuffix(f, q, p - q + |HEADER|);
  }

  /** Text whose last character is a blank and that has no header is passed over. */
  lemma BlankPassOver(f: string, x: string)
    requires f != "" && IsBlank(f[|f| - 1]) && Find(LowerAll(f), HEADER) == None
    ensures RedactBearer(f + x) == f + RedactBearer(x)
  {
    hide RedactBearer, Text.Find, Text.At, Text.LowerAll, IsBlank;
    LowerConcat(f, x);
    var u, w := LowerAll(f), LowerAll(x);
    forall j: nat ensures At(u + w, HEADER, j) <==> |f| <= j && At(w, HEADER, j - |f|) {
      if |f| <= j {
        AtTail(u, w, HEADER, j);
      } else if j + |HEADER| <= |f| {
        AtPrefix(u, w, HEADER, j);
      } else {
        NoHeaderOverBlank(f, x, j);
      }
    }
    match Find(w, HEADER) {
      case None => assert Find(u + w, HEADER) == None;
      case Some(i) => FindIs(u + w, HEADER, |f| + i);
    }
    BearerShift(f, x);
  }

  lemma NoHeaderOverBlank(f: string, x: string, j: nat)
    requires f != "" && IsBlank(f[|f| - 1]) && j < |f| < j + |HEADER|
    ensures !At(LowerAll(f) + LowerAll(x), HEADER, j)
  {
    var q := |f| - 1;
    HeaderHasNoBlank(q - j);
    Mismatch(LowerAll(f) + LowerAll(x), HEADER, j, q);
  }

  lemma HeaderHasNoBlank(i: nat)
    requires i < |HEADER|
    ensures !IsBlank(HEADER[i]) && ('a' <= HEADER[i] <= 'z' || HEADER[i] == ':')
  {
  }

  /** Behind the announcing header there is no further one. */
  lemma NoHeaderBehind(f: string, p: nat, q: nat)
    requires AnnouncedAt(f, p) && p + |HEADER| <= q <= |f|
    ensures Find(LowerAll(f[q..]), HEADER) == None
  {
    hide CredentialStart, Text.Find, Text.At, Text.LowerAll, IsBlank;
    AnnouncedEnd(f, p);
    var t := f[q..];
    forall j: nat ensures !At(LowerAll(t), HEADER, j) {
      if j + |HEADER| <= |t| {
        assert t[j + 13] == f[q + j + 13];
        NoColonNoHeader(t, j);
      } else {
        TooShort(t, j);
      }
    }
  }

  lemma NoColonNoHeader(t: string, j: nat)
    requires j + |HEADER| <= |t| && t[j + 13] != ':'
    ensures !At(LowerAll(t), HEADER, j)
  {
    Mismatch(LowerAll(t), HEADER, j, j + 13);
  }

  lemma TooShort(t: string, j: nat)
    requires |t| < j + |HEADER|
    ensures !At(LowerAll(t), HEADER, j)
  {
  }

  /** If `f` announces a credential and the pass is not inside one at its end, it treats what
      follows as if `f` were not there. */
  lemma {:induction false} UntakenSplits(f: string, p: nat, x: string)
    requires AnnouncedAt(f, p) && !Taken(f)
    ensures RedactBearer(f + x) == RedactBearer(f) + RedactBearer(x)
    decreases |f|
  {
    hide Taken, RedactBearer, CredentialStart, Text.Find, Text.At, Text.LowerAll, Masking.ValueStop, IsBlank;
    AnnouncedEnd(f, p);
    var i := FirstHeader(f, p);
    var k := i + |HEADER|;
    match CredentialStart(f, k)
    case None =>
      TakenSkip(f, i);
      HeadersApart(f, i, p);
      AnnouncedSuffix(f, p, k);
      UntakenSplits(f[k..], p - k, x);
      HeaderInSuffix(f, p, k);
      StepOverSkip(f, x, "", i);
      assert f + x + "" == f + x && f[k..] + x + "" == f[k..] + x;
    case Some(h) =>
      TakenCut(f, i, h);
      var q := ValueStop(f, h);
      NothingBehind(f);
      assert h != |f|;
      HeadersApart(f, i, p);
      StepOverCut(f, x, i, h);
      if q <= p {
        AnnouncedSuffix(f, p, q);
        UntakenSplits(f[q..], p - q, x);
      } else {
        HeaderSwallowed(f, k, h, p);
        NoHeaderBehind(f, p, q);
        BearerEnd(f[q..]);
        BlankPassOver(f[q..], x);
      }
  }

  lemma FirstHeader(f: string, p: nat) returns (i: nat)
    requires AnnouncedAt(f, p)
    ensures Find(LowerAll(f), HEADER) == Some(i) && At(LowerAll(f), HEADER, i) && i + |HEADER| <= |f|
    ensures i <= p && (i == p ==> CredentialStart(f, i + |HEADER|) == Some(|f|))
  {
    hide CredentialStart, Text.Find, Text.At, Text.LowerAll;
    i := Find(LowerAll(f), HEADER).value;
    HeaderFits(f, i);
  }

  lemma HeaderInSuffix(f: string, p: nat, k: nat)
    requires At(LowerAll(f), HEADER, p) && k <= p && k <= |f|
    ensures Find(LowerAll(f[k..]), HEADER) != None
  {
    hide Text.Find, Text.At, Text.LowerAll;
    LowerSuffix(f, k);
    AtSuffix(LowerAll(f), k, HEADER, p - k);
  }

  /** A header that starts before the end of a value ends before it. */
  lemma HeaderSwallowed(f: string, k: nat, h: nat, p: nat)
    requires k <= |f| && CredentialStart(f, k) == Some(h) && At(LowerAll(f), HEADER, p) && p < ValueStop(f, h) < |f|
    ensures p + |HEADER| <= ValueStop(f, h)
  {
    hide CredentialStart, Text.At, Text.LowerAll, Masking.ValueStop, Masking.IsDelimiter;
    HeaderText(f, p);
    var q := ValueStop(f, h);
    assert IsDelimiter(f[q]);
    var m := f[p..p + |HEADER|];
    assert DelimiterFree(m);
    assert forall j :: p <= j < p + |HEADER| ==> f[j] == m[j - p];
  }

  /** The exact condition: the pass treats two different credentials behind an announcing text
      alike if and only if it is inside a credential at the end of that text. */
  lemma CredentialHiddenExactly(f: string, v: string, w: string, t: string)
    requires AnnouncesCredential(f) && v != w && Boundary(t, 0)
    requires DelimiterFree(v) && Find(LowerAll(v), HEADER) == None && Starts(v, t)
    requires DelimiterFree(w) && Find(LowerAll(w), HEADER) == None && Starts(w, t)
    ensures RedactBearer(f + v + t) == RedactBearer(f + w + t) <==> Taken(f)
  {
    hide Taken, RedactBearer, CredentialStart, Text.Find, Text.At, Text.LowerAll, Masking.DelimiterFree,
      Masking.Boundary, Starts;
    if Taken(f) {
      TakenStep(f, v, t);
      TakenStep(f, w, t);
    } else {
      var p := WhereAnnounced(f);
      SurvivingValue(f, p, v, t);
      SurvivingValue(f, p, w, t);
      PrefixTells(RedactBearer(f), v, w, RedactBearer(t));
    }
  }

  lemma WhereAnnounced(f: string) returns (p: nat)
    requires AnnouncesCredential(f)
    ensures AnnouncedAt(f, p)
  {
    hide CredentialStart, Text.LowerAll;
    p :| At(LowerAll(f), HEADER, p) && CredentialStart(f, p + |HEADER|) == Some(|f|);
  }

  /** A credential that is not taken survives as it is. */
  lemma SurvivingValue(f: string, p: nat, v: string, t: string)
    requires AnnouncedAt(f, p) && !Taken(f) && Boundary(t, 0) && Find(LowerAll(v), HEADER) == None
    ensures RedactBearer(f + v + t) == RedactBearer(f) + v + RedactBearer(t)
  {
    hide Taken, RedactBearer, AnnouncedAt, Text.Find, Text.LowerAll, Masking.Boundary;
    assert f + v + t == f + (v + t);
    UntakenSplits(f, p, v + t);
    PlainPassOver(v, t);
  }

  /** Text without a header in front of a boundary is passed over. */
  lemma PlainPassOver(v: string, t: string)
    requires Boundary(t, 0) && Find(LowerAll(v), HEADER) == None
    ensures RedactBearer(v + t) == v + RedactBearer(t)
  {
    hide RedactBearer, Text.Find, Text.At, Text.LowerAll, Masking.IsDelimiter;
    LowerConcat(v, t);
    var u, w := LowerAll(v), LowerAll(t);
    forall j: nat ensures At(u + w, HEADER, j) <==> |v| <= j && At(w, HEADER, j - |v|) {
      if |v| <= j {
        AtTail(u, w, HEADER, j);
      } else if j + |HEADER| <= |v| {
        AtPrefix(u, w, HEADER, j);
      } else {
        NoHeaderOverDelimiter(v, t, j);
      }
    }
    match Find(w, HEADER) {
      case None => assert Find(u + w, HEADER) == None;
      case Some(i) => FindIs(u + w, HEADER, |v| + i);
    }
    BearerShift(v, t);
  }

  lemma NoHeaderOverDelimiter(v: string, t: string, j: nat)
    requires Boundary(t, 0) && j < |v| < j + |HEADER|
    ensures !At(LowerAll(v) + LowerAll(t), HEADER, j)
  {
    if t == "" {
      assert LowerAll(v) + LowerAll(t) == LowerAll(v);
    } else {
      HeaderHasNoBlank(|v| - j);
      DelimiterIsNoLetter(t[0]);
      Mismatch(LowerAll(v) + LowerAll(t), HEADER, j, |v|);
    }
  }

  lemma DelimiterIsNoLetter(c: char)
    requires IsDelimiter(c)
    ensures Lower(c) == c && !('a' <= c <= 'z') && c != ':'
  {
  }

  lemma PrefixTells(a: string, v: string, w: string, z: string)
    requires v != w
    ensures a + v + z != a + w + z
  {
    var s, t := a + v + z, a + w + z;
    assert s[|a|..|a| + |v|] == v && t[|a|..|a| + |w|] == w;
    assert |s| - |v| == |t| - |w|;
  }

  // ---- many credentials ----------------------------------------------------------------

  lemma ReachedStays(f: string, v: string, t: string, k: nat)
    requires k <= |f| && CredentialStart(f, k) == Some(|f|) && Starts(v, t)
    ensures CredentialStart(f + v + t, k) == Some(|f|)
  {
    hide CredentialStart, IsBlank;
    var s := f + v + t;
    assert s == f + (v + t);
    assert f[..|f|] == s[..|f|];
    CredentialTransfer(f, s, k, |f|);
  }

  lemma ReachedStop(f: string, v: string, t: string)
    requires DelimiterFree(v) && Boundary(t, 0)
    ensures ValueStop(f + v + t, |f|) == |f| + |v|
  {
    hide Masking.IsDelimiter, Masking.ValueStop;
    ValueStopIs(f + v + t, |f|, |f| + |v|);
  }

  /** Fragments and values as the bearer pass would cut them. */
  ghost predicate CredentialText(kept: seq<string>, values: seq<string>) {
    && CutsAtBoundaries(Cuts(kept, values))
    && (forall j :: 0 <= j < |values| ==> Reaches(kept[j]) && Starts(values[j], kept[j + 1]))
  }

  lemma TailOfText(kept: seq<string>, values: seq<string>)
    requires CredentialText(kept, values) && values != []
    ensures CredentialText(kept[1..], values[1..])
    ensures Boundary(Weave(kept[1..], values[1..]), 0)
    ensures Starts(values[0], Weave(kept[1..], values[1..]))
  {
    hide Reaches, Masking.IsDelimiter, IsBlank;
    WovenTail(kept, values);
    var tail := Weave(kept[1..], values[1..]);
    assert kept[1..][0] == kept[1];
    assert kept[1] != "" ==> tail != "" && tail[0] == kept[1][0];
    assert forall j :: 0 <= j < |values| - 1 ==> values[1..][j] == values[j + 1];
    forall j | 0 <= j < |values| - 1 ensures Reaches(kept[1..][j]) && Starts(values[1..][j], kept[1..][j + 1]) {
      assert kept[1..][j] == kept[j + 1] && kept[1..][j + 1] == kept[j + 2];
    }
  }

  /** Any text woven from fragments that the pass reaches through and delimiter-free values is
      redacted to those fragments with masks, and what the pass makes of the last one. */
  lemma {:induction false} BearerIgnoresValues(kept: seq<string>, values: seq<string>)
    requires CredentialText(kept, values)
    ensures var n := |values|;
            RedactBearer(Weave(kept, values)) == Weave(kept[..n] + [RedactBearer(kept[n])], Masks(n))
    decreases |values|
  {
    hide Reaches, RedactBearer, Starts, Masking.IsDelimiter, Masking.Boundary, Masking.DelimiterFree;
    var n := |values|;
    var out := kept[..n] + [RedactBearer(kept[n])];
    if n > 0 {
      var tail := Weave(kept[1..], values[1..]);
      TailOfText(kept, values);
      BearerStep(kept[0], values[0], tail);
      BearerIgnoresValues(kept[1..], values[1..]);
      assert out[1..] == kept[1..][..n - 1] + [RedactBearer(kept[1..][n - 1])];
      assert Masks(n)[1..] == Masks(n - 1);
    }
  }

  /** A header can stand where a credential is expected. Then it is taken for the credential, and
      the credential it announced stays. */
  lemma HeaderAsCredential(token: string)
    requires Find(LowerAll(" Bearer " + token), HEADER) == None
    ensures RedactBearer("Authorization: Bearer Authorization: Bearer " + token) ==
            "Authorization: Bearer [redacted] Bearer " + token
  {
    hide Reaches, RedactBearer, Text.Find, Starts, Text.LowerAll, Masking.DelimiterFree, Masking.Boundary;
    var f, v, t := "Authorization: Bearer ", "Authorization:", " Bearer " + token;
    PlainReaches();
    BlankIsBoundary(t);
    BearerStep(f, v, t);
    BearerEnd(t);
    TwoHeaders(token);
  }

  lemma TwoHeaders(token: string)
    ensures "Authorization: Bearer " + "Authorization:" + (" Bearer " + token) ==
            "Authorization: Bearer Authorization: Bearer " + token
    ensures "Authorization: Bearer " + MASK + (" Bearer " + token) ==
            "Authorization: Bearer [redacted] Bearer " + token
  {
  }

  lemma BlankIsBoundary(t: string)
    requires t != "" && t[0] == ' '
    ensures Boundary(t, 0)
  {
  }

  lemma PlainReaches()
    ensures Reaches("Authorization: Bearer ") && DelimiterFree("Authorization:")
    ensures forall t :: Starts("Authorization:", t)
  {
    hide Text.Find, CredentialStart;
    var f := "Authorization: Bearer ";
    PlainHeader();
    PlainCredential();
    ReachesStep(f, 0);
  }

  lemma PlainHeader()
    ensures Find(LowerAll("Authorization: Bearer "), HEADER) == Some(0)
  {
    hide Text.Find;
    var w := LowerAll("Authorization: Bearer ");
    assert w[0..14] == HEADER;
    FindIs(w, HEADER, 0);
  }

  lemma PlainCredential()
    ensures CredentialStart("Authorization: Bearer ", 14) == Some(22)
  {
    hide BlankStop;
    var f := "Authorization: Bearer ";
    BlankStopIs(f, 14, 15);
    BlankStopIs(f, 21, 22);
    assert LowerAll(f)[15..21] == BEARER;
  }

  /** The fragments of the pass's own cuts are of this kind. */
  lemma {:induction false} CutsAreReached(s: string)
    ensures var c := BearerCuts(s);
            && |c.kept| == |c.values| + 1
            && (forall j :: 0 <= j < |c.values| ==> Reaches(c.kept[j]))
    decreases |s|
  {
    hide Reaches, BearerCuts, CredentialStart, Text.Find, Text.At, Text.LowerAll, Masking.ValueStop;
    BearerIsSubstitution(s);
    match Find(LowerAll(s), HEADER)
    case None => UncutText(s);
    case Some(i) =>
      var k := i + |HEADER|;
      HeaderFits(s, i);
      match CredentialStart(s, k)
      case None =>
        CutsOfSkip(s, i);
        CutsAreReached(s[k..]);
        BearerIsSubstitution(s[k..]);
        var c := BearerCuts(s[k..]);
        if c.values != [] {
          SkipReaches(s, i, c.kept[0]);
        }
      case Some(h) =>
        var n := ValueStop(s, h);
        CutsOfCut(s, i, h);
        CutsAreReached(s[n..]);
        CutReaches(s, i, h);
  }

  lemma SkipReaches(s: string, i: nat, f: string)
    requires Find(LowerAll(s), HEADER) == Some(i) && i + |HEADER| <= |s|
    requires CredentialStart(s, i + |HEADER|) == None && f <= s[i + |HEADER|..] && Reaches(f)
    ensures Reaches(s[..i + |HEADER|] + f)
  {
    hide Reaches, CredentialStart, Text.Find, Text.At, Text.LowerAll;
    var k := i + |HEADER|;
    var g, t := s[..k] + f, s[k + |f|..];
    assert s == g + t;
    assert g[k..] == f;
    FirstHeaderIn(g, t, i);
    ReachesHeader(f);
    SkippedStays(g, t, i);
    ReachesStep(g, i);
  }

  lemma FirstHeaderIn(g: string, t: string, i: nat)
    requires Find(LowerAll(g + t), HEADER) == Some(i) && i + |HEADER| <= |g|
    ensures Find(LowerAll(g), HEADER) == Some(i)
  {
    hide Text.Find, Text.At, Text.LowerAll;
    LowerConcat(g, t);
    forall j: nat | j <= i ensures At(LowerAll(g), HEADER, j) <==> At(LowerAll(g + t), HEADER, j) {
      AtPrefix(LowerAll(g), LowerAll(t), HEADER, j);
    }
    FindIs(LowerAll(g), HEADER, i);
  }

  lemma CutReaches(s: string, i: nat, h: nat)
    requires Find(LowerAll(s), HEADER) == Some(i) && i + |HEADER| <= |s|
    requires CredentialStart(s, i + |HEADER|) == Some(h)
    ensures Reaches(s[..h])
  {
    hide Reaches, CredentialStart, Text.Find, Text.At, Text.LowerAll;
    assert s == s[..h] + s[h..];
    FirstHeaderIn(s[..h], s[h..], i);
    CredentialTransfer(s, s[..h], i + |HEADER|, h);
    ReachesStep(s[..h], i);
  }

  // ---- through the whole sanitizer ------------------------------------------------

  function FoldEach(kept: seq<string>, ms: seq<string>): (r: seq<string>)
    requires AllMarkers(ms)
    ensures |r| == |kept| && forall j :: 0 <= j < |kept| ==> r[j] == Fold(kept[j], ms)
  {
    seq(|kept|, j requires 0 <= j < |kept| => Fold(kept[j], ms))
  }

  lemma FoldKeepsPlain(v: string, ms: seq<string>)
    requires AllMarkers(ms) && DelimiterFree(v) && MarkerFree(v, ms)
    ensures Fold(v, ms) == v
  {
    hide Fold, MarkerFree, Masking.DelimiterFree, AllMarkers;
    CutNothing(v, ms);
    FoldOnStretch(v, 0, ms);
    assert v + Scar(0) == v;
  }

  /** The fold works fragment by fragment around values without a marker. */
  lemma {:induction false} FoldWeaves(kept: seq<string>, values: seq<string>, ms: seq<string>)
    requires AllMarkers(ms) && CutsAtBoundaries(Cuts(kept, values))
    requires forall j :: 0 <= j < |values| ==> Closed(kept[j]) && MarkerFree(values[j], ms)
    ensures Fold(Weave(kept, values), ms) == Weave(FoldEach(kept, ms), values)
    decreases |values|
  {
    hide Fold, Closed, MarkerFree, Masking.IsDelimiter, AllMarkers;
    if values != [] {
      var tail := Weave(kept[1..], values[1..]);
      WovenTail(kept, values);
      FoldSplits(kept[0], values[0], tail, ms);
      FoldKeepsPlain(values[0], ms);
      assert CutsAtBoundaries(Cuts(kept[1..], values[1..]));
      FoldWeaves(kept[1..], values[1..], ms);
      assert FoldEach(kept, ms)[1..] == FoldEach(kept[1..], ms);
    }
  }

  /** The whole sanitizer is blind to any number of credentials without a marker, wherever the
      bearer pass reaches them in the folded text. */
  lemma SanitizeIgnoresCredentials(kept: seq<string>, values: seq<string>)
    requires CutsAtBoundaries(Cuts(kept, values))
    requires forall j :: 0 <= j < |values| ==> Closed(kept[j]) && MarkerFree(values[j], MARKERS)
    requires AllMarkers(MARKERS) && CredentialText(FoldEach(kept, MARKERS), values)
    ensures var n, folded := |values|, FoldEach(kept, MARKERS);
            Sanitize(Weave(kept, values)) == Weave(folded[..n] + [RedactBearer(folded[n])], Masks(n))
  {
    hide Fold, RedactBearer, CredentialText, Closed, MarkerFree, AllMarkers;
    FoldWeaves(kept, values, MARKERS);
    BearerIgnoresValues(FoldEach(kept, MARKERS), values);
  }

  lemma {:induction false} CutKeepsStart(x: string, ms: seq<string>)
    requires AllMarkers(ms) && x != ""
    ensures var f := CutBy(x, ms).0; f != "" && f[0] == x[0] && f <= x
    decreases |ms|
  {
    hide Text.Find;
    if ms != [] {
      match Find(x, ms[0])
      case None => CutKeepsStart(x, ms[1..]);
      case Some(i) => CutKeepsStart(x[..i + |ms[0]|], ms[1..]);
    }
  }

  /** The fold keeps how a text behind a boundary starts. */
  lemma {:induction false} FoldKeepsStart(v: string, b: string, ms: seq<string>)
    requires AllMarkers(ms) && Boundary(b, 0) && Starts(v, b)
    ensures Starts(v, Fold(b, ms))
    decreases |ms|
  {
    hide Redact, IsMarker, IsBlank, Masking.IsDelimiter;
    if ms != [] {
      var p := ms[0];
      MarkerNotEmpty(p);
      RedactKeepsBoundary(b, p);
      if b != "" {
        assert b == [b[0]] + b[1..];
        LeadingDelimiter(b[0], b[1..], p);
      }
      FoldKeepsStart(v, Redact(b, p), ms[1..]);
    }
  }

  /** What the sanitizer leaves of a credential that the bearer pass takes in the folded text: a
      bracket for each marker pass that cut it. So it leaves no trace if and only if it contains
      no marker. */
  lemma CredentialTrace(a: string, v: string, b: string)
    requires AllMarkers(MARKERS) && Closed(a) && Taken(Fold(a, MARKERS)) && Boundary(b, 0)
    requires DelimiterFree(v) && Starts(v, b)
    ensures Sanitize(a + v + b) ==
            RedactBearer(Fold(a, MARKERS)) + Brackets(CutBy(v, MARKERS).1) + RedactBearer(Fold(b, MARKERS))
    ensures CutBy(v, MARKERS).1 == 0 <==> MarkerFree(v, MARKERS)
  {
    hide Fold, RedactBearer, CutBy, Closed, Masking.DelimiterFree, Masking.Boundary, AllMarkers, Brackets,
      Taken, MarkerFree, IsBlank, Starts;
    var (f, c) := CutBy(v, MARKERS);
    CutsCount(v, MARKERS);
    var A, B := Fold(a, MARKERS), Fold(b, MARKERS);
    if c == 0 {
      FoldSplits(a, v, b, MARKERS);
      FoldKeepsPlain(v, MARKERS);
      FoldKeepsStart(v, b, MARKERS);
      TakenStep(A, v, B);
      NoBrackets();
      assert RedactBearer(A) + "" + RedactBearer(B) == RedactBearer(A) + RedactBearer(B);
    } else {
      SanitizedStretch(a, v, b);
      assert v != "" by { NothingInEmpty(MARKERS); }
      CutKeepsStart(v, MARKERS);
      PrefixIsPlain(f, v);
      var w := f + MASK[..9];
      PrefixStarts(f, v, b);
      TakenStep(A, w, "");
      EmptyHasNoHeader();
      BearerEnd("");
      assert A + w + "" == A + f + MASK[..9];
      assert RedactBearer(A) + "" == RedactBearer(A);
    }
  }

  lemma NothingInEmpty(ms: seq<string>)
    requires AllMarkers(ms)
    ensures MarkerFree("", ms)
  {
  }

  lemma PrefixStarts(f: string, v: string, b: string)
    requires Starts(v, b) && f != "" && f <= v
    ensures Starts(f + MASK[..9], "")
  {
    hide IsBlank;
    assert (v + b)[0] == v[0] == f[0];
  }

  /** The exact condition for the whole sanitizer: it treats two different credentials without a
      marker alike if and only if the bearer pass is inside a credential at the end of the folded
      text in front of them. */
  lemma SanitizeHidesExactly(a: string, v: string, w: string, b: string)
    requires AllMarkers(MARKERS) && Closed(a) && AnnouncesCredential(Fold(a, MARKERS)) && Boundary(b, 0) && v != w
    requires DelimiterFree(v) && MarkerFree(v, MARKERS) && Find(LowerAll(v), HEADER) == None && Starts(v, b)
    requires DelimiterFree(w) && MarkerFree(w, MARKERS) && Find(LowerAll(w), HEADER) == None && Starts(w, b)
    ensures Sanitize(a + v + b) == Sanitize(a + w + b) <==> Taken(Fold(a, MARKERS))
  {
    hide Fold, RedactBearer, Closed, Masking.DelimiterFree, Masking.Boundary, AllMarkers, Taken, MarkerFree,
      Starts, AnnouncesCredential, Text.Find, Text.LowerAll;
    var ms := MARKERS;
    assert ms == MARKERS;
    FoldSplits(a, v, b, ms);
    FoldSplits(a, w, b, ms);
    FoldKeepsPlain(v, ms);
    FoldKeepsPlain(w, ms);
    FoldKeepsStart(v, b, ms);
    FoldKeepsStart(w, b, ms);
    CredentialHiddenExactly(Fold(a, ms), v, w, Fold(b, ms));
  }

  // ---- a header that a marker pass takes for its value ------------------------------------

  lemma {:induction false} FoldKeepsFree(s: string, ms: seq<string>)
    requires AllMarkers(ms) && MarkerFree(s, ms)
    ensures Fold(s, ms) == s
    decreases |ms|
  {
    hide Redact, Text.Find, IsMarker;
    if ms != [] {
      MarkerNotEmpty(ms[0]);
      assert Find(s, ms[0]) == None;
      RedactEnd(s, ms[0]);
      FoldKeepsFree(s, ms[1..]);
    }
  }

  lemma CutOwn(m: string, ms: seq<string>)
    requires ms != [] && ms[0] == m && m != "" && MarkerFree(m, ms[1..])
    ensures CutBy(m, ms) == (m, 1)
  {
    hide Text.Find, MarkerFree;
    assert m[0..|m|] == m;
    FindIs(m, m, 0);
    CutNothing(m, ms[1..]);
    assert m[..|m|] == m;
  }

  lemma OthersNotInFirst(ms: seq<string>)
    requires ms == MARKERS
    ensures MarkerFree(ms[0], ms[1..])
  {
    hide Text.Find, IsMarker, DifferAt;
    MarkersAreMarkers();
    NoMarkerIn("");
    forall j | 0 <= j < |ms[1..]| ensures Find(ms[0], ms[1..][j]) == None {
      OtherNotInFirst(ms, j + 1);
    }
  }

  lemma OtherNotInFirst(ms: seq<string>, j: nat)
    requires ms == MARKERS && 0 < j < |ms| && IsMarker(ms[0]) && IsMarker(ms[j]) && MarkerFree("", ms)
    ensures Find(ms[0], ms[j]) == None
  {
    hide Text.Find, IsMarker, DifferAt;
    var d := MarkersDiffer(0, j);
    assert Find("", ms[j]) == None;
    OtherIsNot("", ms[0], ms[j], d);
    assert "" + ms[0] == ms[0];
  }

  lemma KeyOnly()
    ensures CutBy("AccountKey=", MARKERS) == ("AccountKey=", 1)
    ensures FirstIn("AccountKey=", MARKERS, 0)
  {
    hide Text.Find, IsMarker, CutBy, MarkerFree;
    var ms := MARKERS;
    assert ms == MARKERS && ms[0] == "AccountKey=";
    OthersNotInFirst(ms);
    CutOwn(ms[0], ms);
    OwnMarkerIsFound("", ms[0]);
    assert "" + ms[0] == ms[0];
  }

  /** A credential the sanitizer never sees announced: the pass for the account key takes the
      header for its value, and the credential stays. */
  lemma HeaderAsValue(rest: string)
    requires MarkerFree(" Bearer " + rest, MARKERS) && Find(LowerAll(" Bearer " + rest), HEADER) == None
    ensures Sanitize("AccountKey=Authorization: Bearer " + rest) == "AccountKey=[redacted] Bearer " + rest
  {
    hide Fold, RedactBearer, CutBy, Text.Find, Text.LowerAll, MarkerFree, AllMarkers, FirstIn, Closed, Brackets;
    var h, v, b := "AccountKey=", "Authorization:", " Bearer " + rest;
    MarkersAreMarkers();
    KeyOnly();
    CutLikeHead(h, v, MARKERS, 0);
    assert MarkerFree(v, MARKERS[..0]) by { FreeOfNone(v, MARKERS); }
    HeaderValue(rest);
    SanitizedStretch("", h + v, b);
    FoldKeepsFree(b, MARKERS);
    BearerEnd(b);
    FoldOfEmpty();
    KeyHasNoHeader();
    BearerEnd("" + h + MASK[..9]);
    OneBracket(rest);
    KeyAndHeader(rest);
  }

  lemma FreeOfNone(v: string, ms: seq<string>)
    ensures MarkerFree(v, ms[..0])
  {
  }

  lemma HeaderValue(rest: string)
    ensures DelimiterFree("AccountKey=" + "Authorization:") && Boundary(" Bearer " + rest, 0) && Closed("")
  {
    MarkersAreMarkers();
    MarkerIsPlain(MARKERS[0]);
    PlainReaches();
    PlainConcat("AccountKey=", "Authorization:");
  }

  lemma FoldOfEmpty()
    ensures AllMarkers(MARKERS) && Fold("", MARKERS) == ""
  {
    hide Fold, MarkerFree, AllMarkers;
    MarkersAreMarkers();
    NothingInEmpty(MARKERS);
    FoldKeepsFree("", MARKERS);
  }

  lemma KeyHasNoHeader()
    ensures Find(LowerAll("" + "AccountKey=" + MASK[..9]), HEADER) == None
  {
    hide Text.Find, Text.At, Text.LowerAll;
    var s := "" + "AccountKey=" + MASK[..9];
    assert forall j :: 0 <= j < |s| ==> s[j] != ':';
    forall j: nat ensures !At(LowerAll(s), HEADER, j) {
      if j + |HEADER| <= |s| {
        NoColonNoHeader(s, j);
      } else {
        TooShort(s, j);
      }
    }
  }

  lemma OneBracket(rest: string)
    ensures "" + "AccountKey=" + MASK[..9] + Brackets(1) + (" Bearer " + rest) == "AccountKey=[redacted] Bearer " + rest
  {
    assert "" + "AccountKey=" + MASK[..9] + Brackets(1) + " Bearer " == "AccountKey=[redacted] Bearer ";
    Reassociate("" + "AccountKey=" + MASK[..9] + Brackets(1), " Bearer ", rest);
  }

  lemma KeyAndHeader(rest: string)
    ensures "AccountKey=Authorization: Bearer " + rest == "" + ("AccountKey=" + "Authorization:") + (" Bearer " + rest)
  {
    assert "" + ("AccountKey=" + "Authorization:") + " Bearer " == "AccountKey=Authorization: Bearer ";
    Reassociate("" + ("AccountKey=" + "Authorization:"), " Bearer ", rest);
  }

  lemma Reassociate(a: string, b: string, c: string)
    ensures a + (b + c) == a + b + c
  {
  }

  lemma TokenSurvives()
    ensures Sanitize("AccountKey=Authorization: Bearer TOK") == "AccountKey=[redacted] Bearer TOK"
  {
    hide Sanitize, MarkerFree, Text.Find;
    var b := " Bearer TOK";
    assert " Bearer " + "TOK" == b;
    ShortText(b);
    HeaderAsValue("TOK");
    assert "AccountKey=Authorization: Bearer " + "TOK" == "AccountKey=Authorization: Bearer TOK";
    assert "AccountKey=[redacted] Bearer " + "TOK" == "AccountKey=[redacted] Bearer TOK";
  }

  /** No marker without `=`, and no header in so few characters. */
  lemma ShortText(b: string)
    requires '=' !in b && |b| < |HEADER|
    ensures MarkerFree(b, MARKERS) && Find(LowerAll(b), HEADER) == None
  {
    hide Text.Find, IsMarker;
    MarkersAreMarkers();
    var ms := MARKERS;
    assert ms == MARKERS;
    forall j | 0 <= j < |ms| ensures Find(b, ms[j]) == None {
      EndsWithEquals(ms[j]);
      NoEqualsNoMarker(b, ms[j]);
    }
  }

  lemma NoEqualsNoMarker(b: string, m: string)
    requires '=' !in b && m != "" && m[|m| - 1] == '='
    ensures Find(b, m) == None
  {
    hide Text.Find;
    forall j: nat ensures !At(b, m, j) {
      if j + |m| <= |b| {
        Mismatch(b, m, j, j + |m| - 1);
      }
    }
  }

  lemma {:induction false} CutsCount(v: string, ms: seq<string>)
    ensures CutBy(v, ms).1 == 0 <==> MarkerFree(v, ms)
    decreases |ms|
  {
    hide Text.Find;
    if ms != [] {
      assert ms == [ms[0]] + ms[1..];
      FreeOfBoth(v, ms[0], ms[1..]);
      match Find(v, ms[0])
      case None => CutsCount(v, ms[1..]);
      case Some(i) => assert CutBy(v, ms).1 == CutBy(v[..i + |ms[0]|], ms[1..]).1 + 1;
    }
  }

  lemma NoBrackets()
    ensures Brackets(0) == ""
  {
  }

  lemma PrefixIsPlain(f: string, v: string)
    requires DelimiterFree(v) && f <= v
    ensures DelimiterFree(f + MASK[..9]) && Boundary("", 0)
  {
    hide Masking.IsDelimiter;
    MaskBody("");
    var b := MASK[..9];
    assert forall j :: 0 <= j < |f| ==> f[j] == v[j];
    assert DelimiterFree(f) && DelimiterFree(b);
  }
}
