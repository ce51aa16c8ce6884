/** Text primitives shared by the models: substring search, trimming, ASCII case folding.
    A string is a sequence of Unicode scalar values; every pattern searched for is ASCII,
    so positions counted in characters and in UTF-8 bytes select the same pieces. */
module Text {

  datatype Option<+T> = None | Some(value: T)

  /** The pattern `m` stands in `s` at position `i`. */
  predicate At(s: string, m: string, i: nat) {
    i + |m| <= |s| && s[i..i + |m|] == m
  }

  lemma AtChars(s: string, m: string, i: nat)
    requires At(s, m, i)
    ensures forall q {:trigger s[q]} :: i <= q < i + |m| ==> s[q] == m[q - i]
  {
    forall q | i <= q < i + |m| ensures s[q] == m[q - i] {
      assert s[i..i + |m|][q - i] == s[q];
    }
  }

  lemma NotAtHead(s: string, m: string)
    requires s != "" && m != "" && s[0] != m[0]
    ensures !At(s, m, 0)
  {
    assert |m| <= |s| ==> s[0..|m|][0] == s[0];
  }

  /** One differing character rules an occurrence out. */
  lemma Mismatch(s: string, m: string, j: nat, q: nat)
    requires j <= q < j + |m| && q < |s| && s[q] != m[q - j]
    ensures !At(s, m, j)
  {
    assert j + |m| <= |s| ==> s[j..j + |m|][q - j] == s[q];
  }

  lemma AtSuffix(s: string, k: nat, m: string, j: nat)
    requires k <= |s|
    ensures At(s[k..], m, j) <==> At(s, m, k + j)
  {
    if k + j + |m| <= |s| {
      assert s[k..][j..j + |m|] == s[k + j..k + j + |m|];
    }
  }

  /** Appending text neither creates nor moves the occurrences that end inside `a`. */
  lemma AtPrefix(a: string, b: string, m: string, j: nat)
    requires j + |m| <= |a|
    ensures At(a + b, m, j) <==> At(a, m, j)
  {
    assert (a + b)[j..j + |m|] == a[j..j + |m|];
  }

  lemma AtTail(a: string, b: string, m: string, j: nat)
    requires |a| <= j
    ensures At(a + b, m, j) <==> At(b, m, j - |a|)
  {
    assert (a + b)[|a|..] == b;
    AtSuffix(a + b, |a|, m, j - |a|);
  }

  /** The first occurrence of `m` at or behind position `i`. */
  function FindFrom(s: string, m: string, i: nat): (r: Option<nat>)
    ensures r.None? ==> forall j: nat :: i <= j ==> !At(s, m, j)
    ensures r.Some? ==> i <= r.value && At(s, m, r.value)
    ensures r.Some? ==> forall j: nat :: i <= j < r.value ==> !At(s, m, j)
    decreases |s| - i
  {
    if |s| < i + |m| then None
    else if At(s, m, i) then Some(i)
    else FindFrom(s, m, i + 1)
  }

  /** `str::find`. */
  function Find(s: string, m: string): (r: Option<nat>)
    ensures r.None? ==> forall j: nat :: !At(s, m, j)
    ensures r.Some? ==> At(s, m, r.value) && forall j: nat :: j < r.value ==> !At(s, m, j)
    ensures r.Some? ==> r.value + |m| <= |s|
  {
    FindFrom(s, m, 0)
  }

  /** The first occurrence is unique. */
  lemma FindIs(s: string, m: string, i: nat)
    requires At(s, m, i) && forall j: nat :: j < i ==> !At(s, m, j)
    ensures Find(s, m) == Some(i)
  {
    match Find(s, m)
    case None =>
    case Some(k) => assert !(k < i) && !(i < k);
  }

  /** Text behind the first occurrence does not move it. */
  lemma FindInFront(x: string, y: string, p: string, i: nat)
    requires Find(x, p) == Some(i)
    ensures Find(x + y, p) == Some(i)
  {
    hide Find;
    forall j: nat | j <= i ensures At(x + y, p, j) <==> At(x, p, j) {
      AtPrefix(x, y, p, j);
    }
    FindIs(x + y, p, i);
  }

  function Lower(c: char): char {
    if 'A' <= c <= 'Z' then (c as int + 32) as char else c
  }

  /** `to_ascii_lowercase`. */
  function LowerAll(s: string): (r: string)
    ensures |r| == |s|
    ensures forall i :: 0 <= i < |s| ==> r[i] == Lower(s[i])
  {
    seq(|s|, i requires 0 <= i < |s| => Lower(s[i]))
  }

  /** Unicode White_Space, the class `str::trim` removes. */
  predicate IsSpace(c: char) {
    '\t' <= c <= '\r' || c == ' ' || c == '\U{85}' || c == '\U{A0}' || c == '\U{1680}' ||
    '\U{2000}' <= c <= '\U{200A}' || c == '\U{2028}' || c == '\U{2029}' || c == '\U{202F}' ||
    c == '\U{205F}' || c == '\U{3000}'
  }

  function TrimStart(s: string): (r: string)
    ensures |r| <= |s|
    ensures r == "" || !IsSpace(r[0])
  {
    if s != "" && IsSpace(s[0]) then TrimStart(s[1..]) else s
  }

  function TrimEnd(s: string): (r: string)
    ensures r <= s
    ensures r == "" || !IsSpace(r[|r| - 1])
  {
    if s != "" && IsSpace(s[|s| - 1]) then TrimEnd(s[..|s| - 1]) else s
  }

  /** `str::trim`. */
  function Trim(s: string): (r: string)
    ensures |r| <= |s|
    ensures r == "" || (!IsSpace(r[0]) && !IsSpace(r[|r| - 1]))
  {
    TrimEnd(TrimStart(s))
  }

  /** Text without outer white space is its own trimmed form. */
  lemma TrimIdentity(s: string)
    requires s == "" || (!IsSpace(s[0]) && !IsSpace(s[|s| - 1]))
    ensures Trim(s) == s
  {
  }

  lemma TrimTwice(s: string)
    ensures Trim(Trim(s)) == Trim(s)
  {
    TrimIdentity(Trim(s));
  }

  /** The White_Space characters of Unicode. */
  lemma SpacesAre(c: char)
    ensures IsSpace(c) <==>
            c in {'\t', '\n', '\U{0B}', '\U{0C}', '\r', ' ', '\U{85}', '\U{A0}', '\U{1680}', '\U{2000}', '\U{2001}',
                  '\U{2002}', '\U{2003}', '\U{2004}', '\U{2005}', '\U{2006}', '\U{2007}', '\U{2008}', '\U{2009}',
                  '\U{200A}', '\U{2028}', '\U{2029}', '\U{202F}', '\U{205F}', '\U{3000}'}
  {
  }

  predicate AllSpaces(s: string) {
    forall i :: 0 <= i < |s| ==> IsSpace(s[i])
  }

  lemma {:induction false} StartTrimmed(s: string)
    ensures |TrimStart(s)| <= |s|
    ensures var n := |s| - |TrimStart(s)|; TrimStart(s) == s[n..] && AllSpaces(s[..n])
    decreases |s|
  {
    hide IsSpace;
    if s != "" && IsSpace(s[0]) {
      StartTrimmed(s[1..]);
      var n := |s[1..]| - |TrimStart(s[1..])|;
      assert s[1..][n..] == s[n + 1..];
      assert s[..n + 1] == [s[0]] + s[1..][..n];
    }
  }

  lemma {:induction false} EndTrimmed(s: string)
    ensures AllSpaces(s[|TrimEnd(s)|..])
    decreases |s|
  {
    hide IsSpace;
    if s != "" && IsSpace(s[|s| - 1]) {
      var t := s[..|s| - 1];
      EndTrimmed(t);
      assert s[|TrimEnd(t)|..] == t[|TrimEnd(t)|..] + [s[|s| - 1]];
    }
  }

  /** Trimming removes the outer spaces and nothing else: around the result stand only spaces. */
  lemma TrimMeans(s: string) returns (before: string, behind: string)
    ensures s == before + Trim(s) + behind && AllSpaces(before) && AllSpaces(behind)
  {
    hide IsSpace, TrimStart, TrimEnd, AllSpaces;
    StartTrimmed(s);
    var t := TrimStart(s);
    EndTrimmed(t);
    before, behind := s[..|s| - |t|], t[|TrimEnd(t)|..];
    assert t == TrimEnd(t) + behind;
  }

  /** Parts with a separator between each two of them. */
  function Join(parts: seq<string>, sep: string): string {
    if parts == [] then "" else if |parts| == 1 then parts[0] else parts[0] + sep + Join(parts[1..], sep)
  }
}
