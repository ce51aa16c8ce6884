/** The `Authorization: Bearer` redaction pass. */
module BearerRedaction {
  import opened Text
  import opened Masking
  import opened MarkerRedaction

  const HEADER := "authorization:"
  const BEARER := "bearer"

  /** `char::is_ascii_whitespace`. */
  predicate IsBlank(c: char) {
    c == ' ' || c == '\t' || c == '\n' || c == '\r' || c == '\U{0C}'
  }

  /** Where the blanks starting at `k` end. */
  function BlankStop(s: string, k: nat): (n: nat)
    requires k <= |s|
    ensures k <= n <= |s| && (n < |s| ==> !IsBlank(s[n]))
    ensures forall j :: k <= j < n ==> IsBlank(s[j])
    decreases |s| - k
  {
    if k == |s| || !IsBlank(s[k]) then k else BlankStop(s, k + 1)
  }

  /** Where the credential starts, if the header ending at `k` announces a bearer one. */
  function CredentialStart(s: string, k: nat): (r: Option<nat>)
    requires k <= |s|
    ensures r.Some? ==> k + |BEARER| < r.value <= |s|
  {
    var b := BlankStop(s, k);
    var e := b + |BEARER|;
    if At(LowerAll(s), BEARER, b) && e < |s| && IsBlank(s[e]) then Some(BlankStop(s, e)) else None
  }

  /** The pass: bearer credentials become the mask, other headers are passed over. */
  function RedactBearer(s: string): string
    decreases |s|
  {
    match Find(LowerAll(s), HEADER)
    case None => s
    case Some(i) =>
      var k := i + |HEADER|;
      match CredentialStart(s, k)
      case None => s[..k] + RedactBearer(s[k..])
      case Some(h) => s[..h] + MASK + RedactBearer(s[ValueStop(s, h)..])
  }

  lemma BearerEnd(s: string)
    requires Find(LowerAll(s), HEADER) == None
    ensures RedactBearer(s) == s
  {
    hide Text.Find;
  }

  lemma BearerSkip(s: string, i: nat)
    requires Find(LowerAll(s), HEADER) == Some(i) && CredentialStart(s, i + |HEADER|) == None
    ensures RedactBearer(s) == s[..i + |HEADER|] + RedactBearer(s[i + |HEADER|..])
  {
    hide Text.Find, CredentialStart, Masking.ValueStop;
  }

  lemma BearerCut(s: string, i: nat, h: nat)
    requires Find(LowerAll(s), HEADER) == Some(i) && CredentialStart(s, i + |HEADER|) == Some(h)
    ensures RedactBearer(s) == s[..h] + MASK + RedactBearer(s[ValueStop(s, h)..])
  {
    hide Text.Find, CredentialStart, Masking.ValueStop;
  }

  lemma LowerSuffix(s: string, k: nat)
    requires k <= |s|
    ensures LowerAll(s[k..]) == LowerAll(s)[k..]
  {
  }

  lemma BlankStopIs(s: string, k: nat, n: nat)
    requires k <= n <= |s| && (n < |s| ==> !IsBlank(s[n]))
    requires forall j :: k <= j < n ==> IsBlank(s[j])
    ensures BlankStop(s, k) == n
  {
    hide IsBlank;
  }

  /** Looking for the credential in a suffix gives the same place. */
  lemma CredentialSuffix(s: string, k: nat, j: nat)
    requires k <= |s| && j <= |s| - k
    ensures CredentialStart(s[k..], j) ==
            match CredentialStart(s, k + j) case None => None case Some(h) => Some(h - k)
  {
    hide BlankStop, Text.At, Text.LowerAll, IsBlank;
    var t := s[k..];
    var b := BlankStop(t, j);
    BlankStopIs(s, k + j, k + b);
    LowerSuffix(s, k);
    AtSuffix(LowerAll(s), k, BEARER, b);
    var e := b + |BEARER|;
    if e <= |t| {
      BlankStopIs(s, k + e, k + BlankStop(t, e));
    }
  }

  /** Between a header and its credential there are only blanks and the scheme name. */
  lemma CredentialChars(s: string, k: nat, h: nat)
    requires k <= |s| && CredentialStart(s, k) == Some(h)
    ensures forall q {:trigger s[q]} :: k <= q < h ==> s[q] != ':' && s[q] != '[' && s[q] != '='
    ensures IsBlank(s[h - 1])
    ensures h < |s| ==> !IsBlank(s[h])
  {
    hide BlankStop;
    AtChars(LowerAll(s), BEARER, BlankStop(s, k));
    forall q | k <= q < h ensures s[q] != ':' && s[q] != '[' && s[q] != '=' {
      assert LowerAll(s)[q] == Lower(s[q]);
    }
  }

  /** A header in any letter case is clean text that ends with its only colon. */
  lemma HeaderText(s: string, i: nat)
    requires At(LowerAll(s), HEADER, i)
    ensures i + |HEADER| <= |s|
    ensures var m := s[i..i + |HEADER|]; At(s, m, i) && Clean(m)
    ensures forall q {:trigger s[q]} :: i <= q < i + |HEADER| ==>
              (s[q] == ':' <==> q == i + |HEADER| - 1) && s[q] != '['  && s[q] != ']'
  {
    hide Text.LowerAll, Text.At;
    AtChars(LowerAll(s), HEADER, i);
    assert |LowerAll(s)| == |s|;
    HeaderFits(s, i);
    var m := s[i..i + |HEADER|];
    forall q | i <= q < i + |HEADER|
      ensures Lower(s[q]) == HEADER[q - i] && !IsDelimiter(s[q]) && s[q] != '['
      ensures s[q] == ':' <==> q == i + |HEADER| - 1
    {
      assert LowerAll(s)[q] == Lower(s[q]);
    }
    assert forall j :: 0 <= j < |m| ==> m[j] == s[i + j];
    assert At(s, m, i) by { HeaderFits(s, i); }
  }

  lemma HeaderFits(s: string, i: nat)
    requires At(LowerAll(s), HEADER, i)
    ensures i + |HEADER| <= |s| && At(s, s[i..i + |HEADER|], i)
  {
  }

  lemma BearerKeepsBoundary(s: string)
    requires Boundary(s, 0)
    ensures Boundary(RedactBearer(s), 0)
  {
    hide Text.FindFrom, Text.Find, RedactBearer, CredentialStart, Masking.ValueStop, Text.At;
    match Find(LowerAll(s), HEADER)
    case None => BearerEnd(s);
    case Some(i) =>
      HeaderText(s, i);
      assert i != 0 by {
        assert s[i..i + |HEADER|][0] == s[i];
      }
      match CredentialStart(s, i + |HEADER|)
      case None => BearerSkip(s, i);
      case Some(h) => BearerCut(s, i, h);
  }

  /** Text up to a skipped header, followed by guarded text, is guarded. */
  lemma SkipKeepsGuard(s: string, i: nat, tail: string, g: string)
    requires IsMarker(g) && Guarded(s, g) && Guarded(tail, g) && At(LowerAll(s), HEADER, i)
    ensures Guarded(s[..i + |HEADER|] + tail, g)
  {
    hide Masking.IsDelimiter, Text.LowerAll;
    HeaderText(s, i);
    var k := i + |HEADER|;
    var a := s[..k];
    assert s == a + s[k..];
    var out := a + tail;
    assert out[k - 1] == ':';
    forall p: nat | At(out, g, p) ensures MaskedAt(out, p + |g|) {
      AtChars(out, g, p);
      assert p + |g| <= k - 1 || k <= p;
      if p + |g| < k {
        AtPrefix(a, tail, g, p);
        AtPrefix(a, s[k..], g, p);
        BehindMask(s, p + |g|, s[i..k], i);
        AtPrefix(a, s[k..], MASK, p + |g|);
        MaskedAtAppend(a, tail, p + |g|);
      } else {
        AtTail(a, tail, g, p);
        MaskedAtPrepend(a, tail, p - k + |g|);
      }
    }
  }

  /** Up to a bearer credential every marker is masked. */
  lemma CredentialPrefixGuarded(s: string, k: nat, h: nat, g: string)
    requires IsMarker(g) && Guarded(s, g) && k <= |s| && CredentialStart(s, k) == Some(h)
    ensures var a := s[..h];
            forall p: nat :: At(a, g, p) ==>
              p + |g| == |a| || (MaskedAt(a, p + |g|) && p + |g| + |MASK| < |a|)
  {
    hide Masking.IsDelimiter, CredentialStart;
    CredentialChars(s, k, h);
    var a, b := s[..h], s[h..];
    assert s == a + b;
    forall p: nat | At(a, g, p) && p + |g| < |a|
      ensures MaskedAt(a, p + |g|) && p + |g| + |MASK| < |a|
    {
      AtPrefix(a, b, g, p);
      MaskChars(s, p + |g|);
      assert s[h - 1] !in MASK;
      AtPrefix(a, b, MASK, p + |g|);
    }
  }

  /** The bearer pass preserves the guard of every marker. */
  lemma {:induction false} BearerKeepsGuard(s: string, g: string)
    requires IsMarker(g) && Guarded(s, g)
    ensures Guarded(RedactBearer(s), g)
    decreases |s|
  {
    hide Text.FindFrom, Text.Find, RedactBearer, CredentialStart, Masking.ValueStop, Text.At,
      Masking.IsDelimiter, Guarded;
    match Find(LowerAll(s), HEADER)
    case None => BearerEnd(s);
    case Some(i) =>
      var k := i + |HEADER|;
      match CredentialStart(s, k)
      case None =>
        GuardedSuffix(s, k, g);
        BearerKeepsGuard(s[k..], g);
        SkipKeepsGuard(s, i, RedactBearer(s[k..]), g);
        BearerSkip(s, i);
      case Some(h) =>
        var from := ValueStop(s, h);
        assert Boundary(s[from..], 0);
        GuardedSuffix(s, from, g);
        BearerKeepsGuard(s[from..], g);
        BearerKeepsBoundary(s[from..]);
        CredentialPrefixGuarded(s, k, h, g);
        CutKeepsGuard(s[..h], RedactBearer(s[from..]), g);
        BearerCut(s, i, h);
  }

  /** If the header ending at `k` announces a bearer credential, that is the mask. */
  predicate CredentialMasked(s: string, k: nat) {
    k <= |s| ==>
      match CredentialStart(s, k)
      case None => true
      case Some(h) => MaskedAt(s, h)
  }

  /** Every bearer credential is masked. */
  ghost predicate BearerGuarded(s: string) {
    forall i: nat :: At(LowerAll(s), HEADER, i) ==> CredentialMasked(s, i + |HEADER|)
  }

  /** Where a credential starts depends only on the text before it. */
  lemma CredentialTransfer(x: string, y: string, k: nat, h: nat)
    requires k <= |x| && CredentialStart(x, k) == Some(h)
    requires h <= |y| && x[..h] == y[..h] && (h < |y| ==> !IsBlank(y[h]))
    ensures CredentialStart(y, k) == Some(h)
  {
    hide BlankStop, IsBlank, Text.LowerAll, Text.At;
    var b := BlankStop(x, k);
    var e := b + |BEARER|;
    BearerFits(x, y, b, h);
    forall q | 0 <= q < h ensures x[q] == y[q] {
      assert x[..h][q] == y[..h][q];
    }
    assert Lower(x[b]) == 'b' by { BearerHead(x, b); }
    BlankLetter(x[b]);
    BlankStopIs(y, k, b);
    BlankStopIs(y, e, h);
  }

  lemma BearerHead(x: string, b: nat)
    requires At(LowerAll(x), BEARER, b)
    ensures b < |x| && Lower(x[b]) == 'b'
  {
    AtChars(LowerAll(x), BEARER, b);
  }

  lemma BlankLetter(c: char)
    requires Lower(c) == 'b'
    ensures !IsBlank(c)
  {
  }

  lemma BearerFits(x: string, y: string, b: nat, h: nat)
    requires At(LowerAll(x), BEARER, b) && b + |BEARER| <= h <= |x| && h <= |y| && x[..h] == y[..h]
    ensures At(LowerAll(y), BEARER, b)
  {
    var e := b + |BEARER|;
    assert forall q :: 0 <= q < h ==> x[..h][q] == x[q] && y[..h][q] == y[q];
    assert LowerAll(y)[b..e] == LowerAll(x)[b..e];
  }

  lemma LowerConcat(a: string, b: string)
    ensures LowerAll(a + b) == LowerAll(a) + LowerAll(b)
  {
  }

  /** A header inside the first part of a text is one in any text with that part. */
  lemma HeaderTransfer(a: string, b: string, c: string, i: nat)
    requires i + |HEADER| <= |a| && At(LowerAll(a + b), HEADER, i)
    ensures At(LowerAll(a + c), HEADER, i)
  {
    LowerConcat(a, b);
    LowerConcat(a, c);
    AtPrefix(LowerAll(a), LowerAll(b), HEADER, i);
    AtPrefix(LowerAll(a), LowerAll(c), HEADER, i);
  }

  /** A credential found in the second part of a text is masked there. */
  lemma TailIsMasked(a: string, t: string, i: nat)
    requires BearerGuarded(t) && |a| <= i && At(LowerAll(a + t), HEADER, i)
    ensures CredentialMasked(a + t, i + |HEADER|)
  {
    hide CredentialStart, Masking.MaskedAt;
    LowerConcat(a, t);
    AtTail(LowerAll(a), LowerAll(t), HEADER, i);
    assert (a + t)[|a|..] == t;
    CredentialSuffix(a + t, |a|, i - |a| + |HEADER|);
    match CredentialStart(a + t, i + |HEADER|)
    case None =>
    case Some(h) => MaskedAtPrepend(a, t, h - |a|);
  }

  /** Behind a cut credential: the first header is masked, the rest was masked before. */
  lemma CutIsMasked(s: string, i: nat, h: nat, t: string)
    requires Find(LowerAll(s), HEADER) == Some(i) && CredentialStart(s, i + |HEADER|) == Some(h)
    requires BearerGuarded(t) && Boundary(t, 0)
    ensures BearerGuarded(s[..h] + MASK + t)
  {
    hide Text.Find, CredentialStart, Masking.IsDelimiter, Masking.Boundary, Masking.MaskedAt,
      Text.LowerAll, Text.At;
    var a, k := s[..h], i + |HEADER|;
    var out := a + MASK + t;
    assert s == a + s[h..] && out == a + (MASK + t);
    HeaderFits(s, i);
    CredentialChars(s, k, h);
    assert out[h] == '[';
    CredentialTransfer(s, out, k, h);
    MaskedAtCut(a, t);
    forall j: nat | At(LowerAll(out), HEADER, j)
      ensures CredentialMasked(out, j + |HEADER|)
    {
      HeaderText(out, j);
      AroundMask(a, t, out[j..j + |HEADER|], j);
      if j + |HEADER| <= h {
        HeaderTransfer(a, MASK + t, s[h..], j);
        assert s[j + |HEADER| - 1] == out[j + |HEADER| - 1] == ':';
        assert j == i;
      } else {
        TailIsMasked(a + MASK, t, j);
      }
    }
  }

  /** Redacting the text behind a header never makes it a bearer header. */
  lemma NoNewCredential(x: string)
    requires CredentialStart(x, 0) == None
    ensures CredentialStart(RedactBearer(x), 0) == None
  {
    hide Text.Find, Text.FindFrom, CredentialStart, RedactBearer, Text.LowerAll, Text.At,
      Masking.ValueStop;
    match Find(LowerAll(x), HEADER)
    case None => BearerEnd(x);
    case Some(j) =>
      HeaderText(x, j);
      var y := RedactBearer(x);
      var n := j + |HEADER|;
      match CredentialStart(x, n) {
        case None => BearerSkip(x, j);
        case Some(h) => BearerCut(x, j, h);
      }
      assert y[..n] == x[..n] && y[n - 1] == x[n - 1] == ':';
      match CredentialStart(y, 0)
      case None =>
      case Some(o) =>
        CredentialChars(y, 0, o);
        assert o < n;
        assert y[..o] == y[..n][..o] == x[..n][..o] == x[..o];
        assert x[o] == x[..n][o] == y[o];
        CredentialTransfer(y, x, 0, o);
  }

  /** Behind a skipped header nothing becomes a credential, the rest was masked before. */
  lemma SkipIsMasked(s: string, i: nat)
    requires Find(LowerAll(s), HEADER) == Some(i) && CredentialStart(s, i + |HEADER|) == None
    requires BearerGuarded(RedactBearer(s[i + |HEADER|..]))
    ensures BearerGuarded(s[..i + |HEADER|] + RedactBearer(s[i + |HEADER|..]))
  {
    hide Text.Find, CredentialStart, Masking.MaskedAt, RedactBearer, Text.LowerAll, Text.At;
    HeaderText(s, i);
    var k := i + |HEADER|;
    var a, t := s[..k], RedactBearer(s[k..]);
    var out := a + t;
    assert s == a + s[k..] && out[k - 1] == ':' && out[k..] == t;
    CredentialSuffix(s, k, 0);
    NoNewCredential(s[k..]);
    CredentialSuffix(out, k, 0);
    forall j: nat | At(LowerAll(out), HEADER, j)
      ensures CredentialMasked(out, j + |HEADER|)
    {
      HeaderText(out, j);
      if j < k {
        assert j + |HEADER| <= k;
        HeaderTransfer(a, t, s[k..], j);
        assert j == i;
      } else {
        TailIsMasked(a, t, j);
      }
    }
  }

  /** In the output every bearer credential is the mask, for any mix of headers. */
  lemma {:induction false} BearerIsMasked(s: string)
    ensures BearerGuarded(RedactBearer(s))
    decreases |s|
  {
    hide Text.FindFrom, Text.Find, RedactBearer, CredentialStart, Masking.ValueStop,
      Masking.IsDelimiter, BearerGuarded;
    match Find(LowerAll(s), HEADER)
    case None =>
      BearerEnd(s);
      NoHeader(s);
    case Some(i) =>
      var k := i + |HEADER|;
      match CredentialStart(s, k)
      case None =>
        BearerIsMasked(s[k..]);
        SkipIsMasked(s, i);
        BearerSkip(s, i);
      case Some(h) =>
        var from := ValueStop(s, h);
        assert Boundary(s[from..], 0);
        BearerIsMasked(s[from..]);
        BearerKeepsBoundary(s[from..]);
        CutIsMasked(s, i, h, RedactBearer(s[from..]));
        BearerCut(s, i, h);
  }

  lemma NoHeader(s: string)
    requires Find(LowerAll(s), HEADER) == None
    ensures BearerGuarded(s)
  {
    hide Text.Find, CredentialStart;
  }

  /** The cuts the bearer pass makes. */
  function BearerCuts(s: string): Cuts
    decreases |s|
  {
    match Find(LowerAll(s), HEADER)
    case None => Cuts([s], [])
    case Some(i) =>
      var k := i + |HEADER|;
      match CredentialStart(s, k)
      case None => ExtendFirst(s[..k], BearerCuts(s[k..]))
      case Some(h) =>
        var n := ValueStop(s, h);
        PrependCut(s[..h], s[h..n], BearerCuts(s[n..]))
  }

  /** Text put in front of the first fragment. */
  function ExtendFirst(a: string, c: Cuts): Cuts {
    if c.kept == [] then c else Cuts([a + c.kept[0]] + c.kept[1..], c.values)
  }

  lemma WeaveExtend(a: string, c: Cuts, fill: seq<string>)
    requires |c.kept| == |fill| + 1
    ensures Weave(ExtendFirst(a, c).kept, fill) == a + Weave(c.kept, fill)
  {
    var kept := ExtendFirst(a, c).kept;
    assert kept[1..] == c.kept[1..];
    if fill != [] {
      assert kept[0] + fill[0] + Weave(kept[1..], fill[1..])
          == a + (c.kept[0] + fill[0] + Weave(c.kept[1..], fill[1..]));
    }
  }

  /** A fragment that ends where a bearer credential starts. */
  ghost predicate AnnouncesCredential(f: string) {
    exists i: nat :: At(LowerAll(f), HEADER, i) && CredentialStart(f, i + |HEADER|) == Some(|f|)
  }

  ghost predicate BearerFragments(kept: seq<string>) {
    kept != [] && forall j :: 0 <= j < |kept| - 1 ==> AnnouncesCredential(kept[j])
  }

  lemma AnnounceExtends(a: string, f: string)
    requires AnnouncesCredential(f)
    ensures AnnouncesCredential(a + f)
  {
    hide CredentialStart, Text.LowerAll;
    var i: nat :| At(LowerAll(f), HEADER, i) && CredentialStart(f, i + |HEADER|) == Some(|f|);
    AnnouncedBehind(a, f, i);
  }

  lemma AnnouncedBehind(a: string, f: string, i: nat)
    requires At(LowerAll(f), HEADER, i) && CredentialStart(f, i + |HEADER|) == Some(|f|)
    ensures At(LowerAll(a + f), HEADER, |a| + i)
    ensures CredentialStart(a + f, |a| + i + |HEADER|) == Some(|a + f|)
  {
    hide CredentialStart, Text.At, Text.LowerAll;
    HeaderFits(f, i);
    LowerConcat(a, f);
    AtTail(LowerAll(a), LowerAll(f), HEADER, |a| + i);
    assert (a + f)[|a|..] == f;
    CredentialSuffix(a + f, |a|, i + |HEADER|);
  }

  lemma AnnouncePrefix(s: string, i: nat, h: nat)
    requires At(LowerAll(s), HEADER, i) && CredentialStart(s, i + |HEADER|) == Some(h)
    ensures AnnouncesCredential(s[..h])
  {
    hide CredentialStart;
    assert s == s[..h] + s[h..] && s[..h] == s[..h] + "";
    HeaderTransfer(s[..h], s[h..], "", i);
    CredentialTransfer(s, s[..h], i + |HEADER|, h);
    assert At(LowerAll(s[..h]), HEADER, i);
  }

  lemma CutsOfSkip(s: string, i: nat)
    requires Find(LowerAll(s), HEADER) == Some(i) && CredentialStart(s, i + |HEADER|) == None
    ensures BearerCuts(s) == ExtendFirst(s[..i + |HEADER|], BearerCuts(s[i + |HEADER|..]))
  {
    hide Text.Find, CredentialStart, Masking.ValueStop;
  }

  lemma CutsOfCut(s: string, i: nat, h: nat)
    requires Find(LowerAll(s), HEADER) == Some(i) && CredentialStart(s, i + |HEADER|) == Some(h)
    ensures var n := ValueStop(s, h);
            BearerCuts(s) == PrependCut(s[..h], s[h..n], BearerCuts(s[n..]))
  {
    hide Text.Find, CredentialStart, Masking.ValueStop;
  }

  lemma ExtendKeepsShape(a: string, c: Cuts)
    requires CutsAtBoundaries(c) && BearerFragments(c.kept)
    ensures CutsAtBoundaries(ExtendFirst(a, c)) && BearerFragments(ExtendFirst(a, c).kept)
  {
    hide AnnouncesCredential, Masking.Boundary, Masking.DelimiterFree;
    var e := ExtendFirst(a, c);
    assert forall j :: 0 < j < |e.kept| ==> e.kept[j] == c.kept[j];
    if c.values != [] {
      AnnounceExtends(a, c.kept[0]);
    }
  }

  lemma PrependKeepsShape(f: string, v: string, c: Cuts)
    requires CutsAtBoundaries(c) && BearerFragments(c.kept)
    requires AnnouncesCredential(f) && DelimiterFree(v) && Boundary(c.kept[0], 0)
    ensures CutsAtBoundaries(PrependCut(f, v, c)) && BearerFragments(PrependCut(f, v, c).kept)
  {
    hide AnnouncesCredential, Masking.Boundary, Masking.DelimiterFree;
    if c.values != [] {
      NonEmptyFragment(c.kept[0]);
    }
    PrependAtBoundaries(f, v, c);
    var kept := [f] + c.kept;
    assert forall j :: 0 < j < |kept| ==> kept[j] == c.kept[j - 1];
  }

  lemma NonEmptyFragment(f: string)
    requires AnnouncesCredential(f)
    ensures f != ""
  {
  }

  /** The bearer pass changes nothing but credential values: the input is cut into
      fragments, each but the last announcing a bearer credential, and delimiter-free
      values; the output has the mask for each value. */
  lemma {:induction false} BearerIsSubstitution(s: string)
    ensures var c := BearerCuts(s);
            && CutsAtBoundaries(c)
            && BearerFragments(c.kept)
            && Weave(c.kept, c.values) == s
            && Weave(c.kept, Masks(|c.values|)) == RedactBearer(s)
            && c.kept[0] <= s
    decreases |s|
  {
    hide Text.FindFrom, Text.Find, RedactBearer, CredentialStart, Masking.ValueStop, BearerCuts,
      Masking.IsDelimiter, BearerFragments, Masking.Weave, Text.At;
    match Find(LowerAll(s), HEADER)
    case None =>
      BearerEnd(s);
      UncutText(s);
    case Some(i) =>
      var k := i + |HEADER|;
      match CredentialStart(s, k)
      case None =>
        var c := BearerCuts(s[k..]);
        BearerIsSubstitution(s[k..]);
        CutsOfSkip(s, i);
        BearerSkip(s, i);
        ExtendKeepsShape(s[..k], c);
        WeaveExtend(s[..k], c, c.values);
        WeaveExtend(s[..k], c, Masks(|c.values|));
        assert s == s[..k] + s[k..];
      case Some(h) =>
        var n := ValueStop(s, h);
        var c := BearerCuts(s[n..]);
        BearerIsSubstitution(s[n..]);
        CutsOfCut(s, i, h);
        BearerCut(s, i, h);
        AnnouncePrefix(s, i, h);
        assert Boundary(s[n..], 0);
        PrependKeepsShape(s[..h], s[h..n], c);
        WeavePrepend(s[..h], s[h..n], c);
        assert s == s[..h] + s[h..n] + s[n..];
  }

  lemma UncutText(s: string)
    requires Find(LowerAll(s), HEADER) == None
    ensures BearerCuts(s) == Cuts([s], [])
    ensures BearerFragments([s]) && Weave([s], []) == s
  {
    hide Text.Find;
  }

  /** The loop over `rest` computes `RedactBearer`; the redacting path and the one that
      passes a header over both shorten `rest`. */
  method RedactAuthorizationBearer(input: string) returns (output: string)
    ensures output == RedactBearer(input)
  {
    hide RedactBearer, CredentialStart, Masking.ValueStop, Text.Find, Text.At, Text.LowerAll;
    output := "";
    var rest := input;
    var next := Find(LowerAll(rest), HEADER);
    while next.Some?
      invariant next == Find(LowerAll(rest), HEADER)
      invariant output + RedactBearer(rest) == RedactBearer(input)
      decreases |rest|
    {
      ghost var done, all := output, rest;
      var afterHeader := next.value + |HEADER|;
      match CredentialStart(rest, afterHeader) {
        case None =>
          BearerSkip(rest, next.value);
          output := output + rest[..afterHeader];
          rest := rest[afterHeader..];
          assert output == done + all[..afterHeader];
        case Some(value) =>
          BearerCut(rest, next.value, value);
          output := output + rest[..value] + MASK;
          rest := rest[ValueStop(rest, value)..];
          assert output == done + (all[..value] + MASK);
      }
      next := Find(LowerAll(rest), HEADER);
    }
    BearerEnd(rest);
    output := output + rest;
  }
}
