/** Strings in byte order and strictly sorted lists of them, as a `BTreeSet` keeps. */
module Ordering {

  predicate Less(a: string, b: string) {
    b != "" && (a == "" || a[0] < b[0] || (a[0] == b[0] && Less(a[1..], b[1..])))
  }

  lemma LessIrreflexive(a: string)
    ensures !Less(a, a)
  {
  }

  lemma {:induction false} LessTransitive(a: string, b: string, c: string)
    requires Less(a, b) && Less(b, c)
    ensures Less(a, c)
    decreases |a|
  {
    if a != "" && a[0] == b[0] && b[0] == c[0] {
      LessTransitive(a[1..], b[1..], c[1..]);
    }
  }

  lemma {:induction false} LessTotal(a: string, b: string)
    ensures a == b || Less(a, b) || Less(b, a)
    decreases |a|
  {
    if a != "" && b != "" && a[0] == b[0] {
      LessTotal(a[1..], b[1..]);
      assert a == [a[0]] + a[1..] && b == [b[0]] + b[1..];
    }
  }

  ghost predicate Sorted(xs: seq<string>) {
    forall i, j :: 0 <= i < j < |xs| ==> Less(xs[i], xs[j])
  }

  /** `BTreeSet::insert`. */
  function Insert(x: string, xs: seq<string>): seq<string> {
    if xs == [] then [x]
    else if x == xs[0] then xs
    else if Less(x, xs[0]) then [x] + xs
    else [xs[0]] + Insert(x, xs[1..])
  }

  lemma {:induction false} InsertElements(x: string, xs: seq<string>)
    ensures forall y :: y in Insert(x, xs) <==> y == x || y in xs
    decreases |xs|
  {
    hide Less;
    if xs != [] && x != xs[0] && !Less(x, xs[0]) {
      InsertElements(x, xs[1..]);
      assert xs == [xs[0]] + xs[1..];
    }
  }

  lemma {:induction false} InsertSorted(x: string, xs: seq<string>)
    requires Sorted(xs)
    ensures Sorted(Insert(x, xs))
    decreases |xs|
  {
    hide Less;
    if xs != [] && x != xs[0] {
      if Less(x, xs[0]) {
        forall j | 0 < j < |xs| ensures Less(x, xs[j]) {
          LessTransitive(x, xs[0], xs[j]);
        }
      } else {
        LessTotal(x, xs[0]);
        InsertSorted(x, xs[1..]);
        InsertElements(x, xs[1..]);
        var r := Insert(x, xs[1..]);
        forall j | 0 <= j < |r| ensures Less(xs[0], r[j]) {
          assert r[j] in r;
        }
      }
    }
  }

  /** A strictly sorted list is determined by its elements. */
  lemma {:induction false} SortedIsUnique(xs: seq<string>, ys: seq<string>)
    requires Sorted(xs) && Sorted(ys) && (forall z :: z in xs <==> z in ys)
    ensures xs == ys
    decreases |xs|
  {
    hide Less;
    if xs == [] {
      assert forall k :: 0 <= k < |ys| ==> ys[k] in ys;
    } else {
      assert xs[0] in ys;
      var j :| 0 <= j < |ys| && ys[j] == xs[0];
      assert ys[0] in xs;
      var i :| 0 <= i < |xs| && xs[i] == ys[0];
      HeadsAgree(xs, ys, i, j);
      forall z ensures z in xs[1..] <==> z in ys[1..] {
        TailElements(xs, z);
        TailElements(ys, z);
      }
      SortedIsUnique(xs[1..], ys[1..]);
      assert xs == [xs[0]] + xs[1..] && ys == [ys[0]] + ys[1..];
    }
  }

  lemma HeadsAgree(xs: seq<string>, ys: seq<string>, i: nat, j: nat)
    requires Sorted(xs) && Sorted(ys) && i < |xs| && j < |ys| && ys[j] == xs[0] && xs[i] == ys[0]
    ensures xs[0] == ys[0]
  {
    hide Less;
    if i > 0 && j > 0 {
      LessTransitive(xs[0], ys[0], xs[0]);
      LessIrreflexive(xs[0]);
    }
  }

  lemma TailElements(xs: seq<string>, z: string)
    requires Sorted(xs) && xs != []
    ensures z in xs[1..] <==> z in xs && z != xs[0]
  {
    hide Less;
    LessIrreflexive(xs[0]);
    assert xs == [xs[0]] + xs[1..];
    assert forall k :: 0 <= k < |xs| - 1 ==> xs[1..][k] == xs[k + 1];
  }

  /** The order itself: at the first place where two strings differ the smaller character comes
      first, and a proper beginning comes before the longer string. */
  lemma {:induction false} LessMeans(a: string, b: string, k: nat)
    requires k <= |a| && k <= |b| && a[..k] == b[..k]
    requires k < |a| && k < |b| ==> a[k] != b[k]
    ensures Less(a, b) <==> k < |b| && (k == |a| || a[k] < b[k])
    decreases |a|
  {
    if k > 0 {
      assert a[0] == a[..k][0] == b[..k][0] == b[0];
      assert a[1..][..k - 1] == a[..k][1..] == b[1..][..k - 1];
      LessMeans(a[1..], b[1..], k - 1);
    }
  }
}
