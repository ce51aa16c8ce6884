/** The sanitizer in literal terms: the nine markers, the delimiters, the mask, and the bearer
    header in every mix of letter cases, spelled out character by character. */
module Spelling {
  import opened Text
  import opened Masking
  import opened MarkerRedaction
  import opened BearerRedaction
  import opened Sanitizer
  import opened Stretches
  import opened Credentials

  /** The letter or its capital. */
  predicate Spelled(c: char, letter: char) {
    c == letter || ('a' <= letter <= 'z' && c as int == letter as int - 'a' as int + 'A' as int)
  }

  predicate SpelledAt(s: string, i: nat, word: string) {
    i + |word| <= |s| && forall q {:trigger s[q]} :: i <= q < i + |word| ==> Spelled(s[q], word[q - i])
  }

  predicate Blank(c: char) { c in {' ', '\t', '\n', '\r', '\U{0C}'} }

  predicate Blanks(s: string, i: nat, n: nat) {
    forall q {:trigger s[q]} :: i <= q < n && q < |s| ==> Blank(s[q])
  }

  lemma BlanksAre(c: char)
    ensures IsBlank(c) <==> Blank(c)
  {
  }

  lemma LowerSpells(c: char, letter: char)
    requires 'a' <= letter <= 'z' || letter == ':'
    ensures Lower(c) == letter <==> Spelled(c, letter)
  {
  }

  /** A word in lower case. */
  predicate LowerWord(word: string) {
    forall j :: 0 <= j < |word| ==> 'a' <= word[j] <= 'z' || word[j] == ':'
  }

  lemma SpelledIsAt(s: string, i: nat, word: string)
    requires LowerWord(word)
    ensures SpelledAt(s, i, word) <==> At(LowerAll(s), word, i)
  {
    hide Spelled;
    var w := LowerAll(s);
    if i + |word| <= |s| {
      forall q | i <= q < i + |word| ensures w[q] == word[q - i] <==> Spelled(s[q], word[q - i]) {
        LowerSpells(s[q], word[q - i]);
      }
      SliceByChar(w, i, word);
    }
  }

  lemma SliceByChar(w: string, i: nat, word: string)
    requires i + |word| <= |w|
    ensures w[i..i + |word|] == word <==> forall q {:trigger w[q]} :: i <= q < i + |word| ==> w[q] == word[q - i]
  {
    var t := w[i..i + |word|];
    assert forall j :: 0 <= j < |word| ==> t[j] == w[i + j];
    if t == word {
      forall q | i <= q < i + |word| ensures w[q] == word[q - i] {
        assert t[q - i] == w[q];
      }
    }
  }

  lemma WordsAreLower()
    ensures HEADER == "authorization:" && BEARER == "bearer" && LowerWord("authorization:") && LowerWord("bearer")
  {
  }

  // ---- where a credential starts ----------------------------------------------------

  /** Behind position `k`: blanks, the scheme's name in any case, one or more blanks; at `n` the
      credential starts. */
  ghost predicate CredentialAt(s: string, k: nat, b: nat, n: nat) {
    && k <= b && b + 6 < n <= |s|
    && Blanks(s, k, b) && SpelledAt(s, b, "bearer") && Blanks(s, b + 6, n)
    && (n < |s| ==> !Blank(s[n]))
  }

  lemma BearerIsNotBlank(s: string, b: nat)
    requires SpelledAt(s, b, "bearer")
    ensures b < |s| && !IsBlank(s[b])
  {
    assert Spelled(s[b], 'b');
  }

  lemma StopOfBlanks(s: string, i: nat, n: nat)
    requires i <= n <= |s| && Blanks(s, i, n) && (n < |s| ==> !Blank(s[n]))
    ensures BlankStop(s, i) == n
  {
    hide IsBlank, Blank;
    forall q | i <= q < n ensures IsBlank(s[q]) {
      BlanksAre(s[q]);
    }
    if n < |s| {
      BlanksAre(s[n]);
    }
    BlankStopIs(s, i, n);
  }

  /** The credential behind a header is where the spelled-out form says, and nowhere else. */
  lemma CredentialIsSpelled(s: string, k: nat, n: nat)
    requires k <= |s|
    ensures CredentialStart(s, k) == Some(n) <==> exists b: nat :: CredentialAt(s, k, b, n)
  {
    hide BlankStop, IsBlank, Blank, Text.At, Text.LowerAll, SpelledAt;
    WordsAreLower();
    if CredentialStart(s, k) == Some(n) {
      var b := BlankStop(s, k);
      SpelledIsAt(s, b, "bearer");
      forall q | 0 <= q < |s| ensures IsBlank(s[q]) <==> Blank(s[q]) {
        BlanksAre(s[q]);
      }
      assert CredentialAt(s, k, b, n);
    }
    if exists b: nat :: CredentialAt(s, k, b, n) {
      var b: nat :| CredentialAt(s, k, b, n);
      SpelledIsAt(s, b, "bearer");
      BearerIsNotBlank(s, b);
      BlanksAre(s[b]);
      StopOfBlanks(s, k, b);
      StopOfBlanks(s, b + 6, n);
      BlanksAre(s[b + 6]);
    }
  }

  // ---- a spelled-out header in a text ------------------------------------------------

  /** Behind text in which no header starts, a header and scheme in any mix of cases, with blanks
      around the scheme as the standard has them, announce a value; that value, up to the next
      delimiter, becomes the mask, and the rest is treated by itself. */
  lemma SpelledCredentialIsMasked(a: string, h: string, w: string, x: string, y: string, v: string, t: string)
    requires forall j: nat :: j < |a| ==> !SpelledAt(a + h, j, "authorization:")
    requires |h| == 14 && SpelledAt(h, 0, "authorization:")
    requires Blanks(w, 0, |w|)
    requires |x| == 6 && SpelledAt(x, 0, "bearer")
    requires y != "" && Blanks(y, 0, |y|)
    requires v + t != "" ==> !Blank((v + t)[0])
    requires DelimiterFree(v) && Boundary(t, 0)
    ensures RedactBearer(a + h + w + x + y + v + t) == a + h + w + x + y + "[redacted]" + RedactBearer(t)
  {
    hide RedactBearer, Reaches, Blank, IsBlank, SpelledAt, Masking.DelimiterFree, Masking.Boundary;
    var f := a + h + w + x + y;
    SpelledReaches(a, h, w, x, y);
    if v + t != "" {
      BlanksAre((v + t)[0]);
    }
    BearerStep(f, v, t);
  }

  lemma SpelledReaches(a: string, h: string, w: string, x: string, y: string)
    requires forall j: nat :: j < |a| ==> !SpelledAt(a + h, j, "authorization:")
    requires |h| == 14 && SpelledAt(h, 0, "authorization:")
    requires Blanks(w, 0, |w|) && |x| == 6 && SpelledAt(x, 0, "bearer") && y != "" && Blanks(y, 0, |y|)
    ensures Reaches(a + h + w + x + y)
  {
    hide CredentialStart, Reaches, Text.Find, Text.At, Text.LowerAll, Blank, SpelledAt, Blanks;
    var f := a + h + w + x + y;
    SpelledHeader(a, h, w + x + y);
    assert f == a + h + (w + x + y);
    var k, b := |a| + 14, |a| + 14 + |w|;
    SpelledScheme(a + h, w, x, y);
    CredentialIsSpelled(f, k, |f|);
    ReachesStep(f, |a|);
  }

  lemma SpelledPrefix(c: string, z: string, j: nat, word: string)
    requires j + |word| <= |c|
    ensures SpelledAt(c + z, j, word) <==> SpelledAt(c, j, word)
  {
    hide Spelled;
    var s := c + z;
    assert forall q {:trigger s[q]} {:trigger c[q]} :: 0 <= q < |c| ==> s[q] == c[q];
  }

  lemma SpelledTail(a: string, h: string, word: string)
    requires SpelledAt(h, 0, word)
    ensures SpelledAt(a + h, |a|, word)
  {
    hide Spelled;
    var s := a + h;
    forall q | |a| <= q < |a| + |word| ensures Spelled(s[q], word[q - |a|]) {
      assert s[q] == h[q - |a|];
    }
  }

  lemma SpelledHeader(a: string, h: string, z: string)
    requires forall j: nat :: j < |a| ==> !SpelledAt(a + h, j, "authorization:")
    requires |h| == 14 && SpelledAt(h, 0, "authorization:")
    ensures Find(LowerAll(a + h + z), HEADER) == Some(|a|)
  {
    hide Text.Find, Text.At, Text.LowerAll, SpelledAt;
    WordsAreLower();
    var s := a + h + z;
    var l := LowerAll(s);
    forall j: nat | j <= |a| ensures At(l, HEADER, j) <==> j == |a| {
      SpelledIsAt(s, j, HEADER);
      SpelledPrefix(a + h, z, j, HEADER);
      if j == |a| {
        SpelledTail(a, h, HEADER);
      } else {
        assert !SpelledAt(a + h, j, "authorization:");
      }
    }
    FindIs(l, HEADER, |a|);
  }

  lemma SpelledScheme(p: string, w: string, x: string, y: string)
    requires Blanks(w, 0, |w|) && |x| == 6 && SpelledAt(x, 0, "bearer") && y != "" && Blanks(y, 0, |y|)
    ensures CredentialAt(p + w + x + y, |p|, |p| + |w|, |p + w + x + y|)
  {
    hide Blank, Spelled;
    var f := p + w + x + y;
    assert forall q {:trigger f[q]} :: |p| <= q < |p| + |w| ==> f[q] == w[q - |p|];
    assert forall q {:trigger f[q]} :: |p| + |w| <= q < |p| + |w| + 6 ==> f[q] == x[q - |p| - |w|];
    assert forall q {:trigger f[q]} :: |p| + |w| + 6 <= q < |f| ==> f[q] == y[q - |p| - |w| - 6];
  }

  // ---- what stands in a sanitized text --------------------------------------------------

  /** At `n` stand the mask and then the end or one of the delimiters. */
  predicate MaskAt(s: string, n: nat) {
    && n + 10 <= |s| && s[n..n + 10] == "[redacted]"
    && (n + 10 < |s| ==> s[n + 10] in {';', '&', ' ', '\n', '\r', '\t', '\'', '"', ')', ']', '>'})
  }

  lemma MaskIsSpelled(s: string, n: nat)
    ensures MaskedAt(s, n) <==> MaskAt(s, n)
  {
    hide Masking.IsDelimiter;
    if n + 10 < |s| {
      DelimitersAre(s[n + 10]);
    }
  }

  /** Every bearer header, in whatever case, stands before the mask: in the output of the pass and
      of the whole sanitizer. */
  lemma SpelledHeadersAreMasked(s: string, i: nat, b: nat, n: nat)
    ensures var out := RedactBearer(s);
            SpelledAt(out, i, "authorization:") && CredentialAt(out, i + 14, b, n) ==> MaskAt(out, n)
    ensures var out := Sanitize(s);
            SpelledAt(out, i, "authorization:") && CredentialAt(out, i + 14, b, n) ==> MaskAt(out, n)
  {
    hide RedactBearer, Sanitize, CredentialAt, SpelledAt, MaskAt;
    BearerIsMasked(s);
    GuardedIsSpelled(RedactBearer(s), i, b, n);
    assert "sig=" == MARKERS[2];
    SanitizedIsMasked(s, "sig=");
    GuardedIsSpelled(Sanitize(s), i, b, n);
  }

  lemma GuardedIsSpelled(out: string, i: nat, b: nat, n: nat)
    requires BearerGuarded(out)
    ensures SpelledAt(out, i, "authorization:") && CredentialAt(out, i + 14, b, n) ==> MaskAt(out, n)
  {
    hide CredentialStart, Text.At, Text.LowerAll, SpelledAt, MaskAt, Masking.MaskedAt;
    if SpelledAt(out, i, "authorization:") && CredentialAt(out, i + 14, b, n) {
      WordsAreLower();
      SpelledIsAt(out, i, HEADER);
      CredentialIsSpelled(out, i + 14, n);
      MaskIsSpelled(out, n);
      assert CredentialMasked(out, i + |HEADER|);
    }
  }

  predicate Occurs(s: string, m: string, p: nat) {
    p + |m| <= |s| && s[p..p + |m|] == m
  }

  ghost predicate FollowedByMask(s: string, m: string) {
    forall p: nat :: Occurs(s, m, p) ==> MaskAt(s, p + |m|)
  }

  lemma GuardIsMask(s: string, m: string)
    requires Guarded(s, m)
    ensures FollowedByMask(s, m)
  {
    hide MaskAt, Masking.MaskedAt;
    forall p: nat | Occurs(s, m, p) ensures MaskAt(s, p + |m|) {
      assert At(s, m, p);
      MaskIsSpelled(s, p + |m|);
    }
  }

  /** The nine markers by name: in every sanitized text each is followed by the mask. */
  lemma NineMarkersAreMasked(s: string)
    ensures FollowedByMask(Sanitize(s), "AccountKey=")
    ensures FollowedByMask(Sanitize(s), "SharedAccessSignature=")
    ensures FollowedByMask(Sanitize(s), "sig=")
    ensures FollowedByMask(Sanitize(s), "signature=")
    ensures FollowedByMask(Sanitize(s), "X-Amz-Signature=")
    ensures FollowedByMask(Sanitize(s), "AWSAccessKeyId=")
    ensures FollowedByMask(Sanitize(s), "access_key=")
    ensures FollowedByMask(Sanitize(s), "secret_key=")
    ensures FollowedByMask(Sanitize(s), "SecretAccessKey=")
  {
    hide Sanitize, FollowedByMask;
    MarkerIsMasked(s, 0);
    MarkerIsMasked(s, 1);
    MarkerIsMasked(s, 2);
    MarkerIsMasked(s, 3);
    MarkerIsMasked(s, 4);
    MarkerIsMasked(s, 5);
    MarkerIsMasked(s, 6);
    MarkerIsMasked(s, 7);
    MarkerIsMasked(s, 8);
  }

  lemma MarkerIsMasked(s: string, i: nat)
    requires i < |MARKERS|
    ensures FollowedByMask(Sanitize(s), MARKERS[i])
  {
    hide Sanitize, FollowedByMask, Guarded, BearerGuarded;
    SanitizedIsMasked(s, MARKERS[i]);
    GuardIsMask(Sanitize(s), MARKERS[i]);
  }

  ghost predicate Lacks(s: string, m: string) {
    forall p: nat :: !Occurs(s, m, p)
  }

  /** A text with none of the nine markers and no header comes out as it went in. */
  lemma OtherTextIsKept(s: string)
    requires Lacks(s, "AccountKey=") && Lacks(s, "SharedAccessSignature=") && Lacks(s, "sig=")
    requires Lacks(s, "signature=") && Lacks(s, "X-Amz-Signature=") && Lacks(s, "AWSAccessKeyId=")
    requires Lacks(s, "access_key=") && Lacks(s, "secret_key=") && Lacks(s, "SecretAccessKey=")
    requires forall j: nat :: !SpelledAt(s, j, "authorization:")
    ensures Sanitize(s) == s
  {
    hide Fold, RedactBearer, Lacks, SpelledAt, AllMarkers, MarkerFree;
    MarkersAreMarkers();
    NothingToMask(s, MARKERS);
    FoldKeepsFree(s, MARKERS);
    NoHeaderSpelled(s);
    BearerEnd(s);
  }

  lemma NothingToMask(s: string, ms: seq<string>)
    requires forall j :: 0 <= j < |ms| ==> Lacks(s, ms[j])
    ensures MarkerFree(s, ms)
  {
    hide Text.Find;
    forall j | 0 <= j < |ms| ensures Find(s, ms[j]) == None {
      forall p: nat ensures !At(s, ms[j], p) {
        assert !Occurs(s, ms[j], p);
      }
    }
  }

  lemma NoHeaderSpelled(s: string)
    requires forall j: nat :: !SpelledAt(s, j, "authorization:")
    ensures Find(LowerAll(s), HEADER) == None
  {
    hide Text.Find, Text.At, Text.LowerAll, SpelledAt;
    WordsAreLower();
    forall j: nat ensures !At(LowerAll(s), HEADER, j) {
      SpelledIsAt(s, j, HEADER);
    }
  }
}
