/** Values shared by every component: optional values, results with an error, and converting a list with either. */
module Wrappers {
  datatype Option<+T> = None | Some(value: T)

  datatype Result<+T, +E> = Success(value: T) | Failure(error: E)

  function Snoc<U>(us: Option<seq<U>>, u: Option<U>): Option<seq<U>> {
    if us.None? || u.None? then None else Some(us.value + [u.value])
  }

  /** A conversion built up element by element converts each element. */
  lemma {:induction false} EachConverts<T, U>(f: T -> Option<U>, all: seq<T> -> Option<seq<U>>, vs: seq<T>, n: nat)
    requires n <= |vs| && all([]) == Some([])
    requires forall k :: 0 <= k < |vs| ==> all(vs[..k + 1]) == Snoc(all(vs[..k]), f(vs[k]))
    ensures all(vs[..n]).Some? ==> |all(vs[..n]).value| == n
    ensures all(vs[..n]).Some? <==> forall i :: 0 <= i < n ==> f(vs[i]).Some?
    ensures all(vs[..n]).Some? ==> forall i :: 0 <= i < n ==> f(vs[i]) == Some(all(vs[..n]).value[i])
  {
    if n > 0 {
      EachConverts(f, all, vs, n - 1);
      assert all(vs[..n - 1 + 1]) == Snoc(all(vs[..n - 1]), f(vs[n - 1]));
    } else {
      assert vs[..0] == [];
    }
  }
}

/**
 Go's string primitives: `strings.TrimSpace`, `<` on strings, `slices.Sort` and
 `slices.Compact`. A Dafny `char` is a Unicode scalar value, and comparing UTF-8
 encodings byte by byte orders strings exactly as comparing scalar values does.
 */
module Text {
  import Sorting

  /** `unicode.IsSpace`. */
  predicate IsSpace(c: char) {
    || '\t' <= c <= '\r'
    || c in {' ', '\U{0085}', '\U{00A0}', '\U{1680}', '\U{2028}', '\U{2029}', '\U{202F}', '\U{205F}', '\U{3000}'}
    || '\U{2000}' <= c <= '\U{200A}'
  }

  predicate Trimmed(s: string) {
    s != [] ==> !IsSpace(s[0]) && !IsSpace(s[|s| - 1])
  }

  function TrimSpace(s: string): (r: string)
    ensures Trimmed(r)
    ensures Trimmed(s) ==> r == s
  {
    if s == [] then s
    else if IsSpace(s[0]) then TrimSpace(s[1..])
    else if IsSpace(s[|s| - 1]) then TrimSpace(s[..|s| - 1])
    else s
  }

  predicate AllSpace(s: string) {
    forall i :: 0 <= i < |s| ==> IsSpace(s[i])
  }

  /** `s[i..j]` is what is left of `s` after dropping spaces at both ends. */
  ghost predicate Leaves(s: string, i: nat, j: nat, kept: string) {
    i <= j <= |s| && kept == s[i..j] && AllSpace(s[..i]) && AllSpace(s[j..])
  }

  lemma LeavesAfterFirst(s: string, i: nat, j: nat, kept: string)
    requires s != [] && IsSpace(s[0]) && Leaves(s[1..], i, j, kept)
    ensures Leaves(s, i + 1, j + 1, kept)
  {
    assert s[1..][i..j] == s[i + 1..j + 1] && s[1..][j..] == s[j + 1..];
    assert s[..i + 1] == [s[0]] + s[1..][..i];
  }

  lemma LeavesBeforeLast(s: string, i: nat, j: nat, kept: string)
    requires s != [] && IsSpace(s[|s| - 1]) && Leaves(s[..|s| - 1], i, j, kept)
    ensures Leaves(s, i, j, kept)
  {
    var front := s[..|s| - 1];
    assert front[i..j] == s[i..j] && front[..i] == s[..i];
    assert s[j..] == front[j..] + [s[|s| - 1]];
  }

  /** Trimming keeps a part of the string and drops only spaces before and after it. */
  lemma {:induction false} TrimSpaceExact(s: string) returns (i: nat, j: nat)
    ensures i <= j <= |s| && TrimSpace(s) == s[i..j] && AllSpace(s[..i]) && AllSpace(s[j..])
    decreases |s|
  {
    if s != [] && IsSpace(s[0]) {
      i, j := TrimSpaceExact(s[1..]);
      LeavesAfterFirst(s, i, j, TrimSpace(s));
      i, j := i + 1, j + 1;
    } else if s != [] && IsSpace(s[|s| - 1]) {
      i, j := TrimSpaceExact(s[..|s| - 1]);
      LeavesBeforeLast(s, i, j, TrimSpace(s));
    } else {
      i, j := 0, |s|;
      assert s[0..|s|] == s;
    }
  }

  // ---- Lexicographic order ----

  predicate Less(a: string, b: string) {
    b != [] && (a == [] || a[0] < b[0] || (a[0] == b[0] && Less(a[1..], b[1..])))
  }

  lemma {:induction false} LessIrreflexive(a: string)
    ensures !Less(a, a)
  {
    if a != [] { LessIrreflexive(a[1..]); }
  }

  lemma {:induction false} LessTransitive(a: string, b: string, c: string)
    requires Less(a, b) && Less(b, c)
    ensures Less(a, c)
  {
    if a != [] && a[0] == b[0] == c[0] { LessTransitive(a[1..], b[1..], c[1..]); }
  }

  lemma {:induction false} LessTotal(a: string, b: string)
    ensures Less(a, b) || a == b || Less(b, a)
  {
    if a != [] && b != [] && a[0] == b[0] {
      LessTotal(a[1..], b[1..]);
      assert a == [a[0]] + a[1..] && b == [b[0]] + b[1..];
    }
  }

  lemma LessAsymmetric(a: string, b: string)
    ensures !(Less(a, b) && Less(b, a))
  {
    if Less(a, b) && Less(b, a) {
      LessTransitive(a, b, a);
      LessIrreflexive(a);
    }
  }

  /** The first character that differs decides, and a proper prefix comes first. */
  lemma {:induction false} FirstDifferenceDecides(a: string, b: string, k: nat)
    requires k <= |a| && k <= |b| && a[..k] == b[..k]
    ensures k < |a| && k < |b| && a[k] < b[k] ==> Less(a, b)
    ensures k == |a| < |b| ==> Less(a, b)
  {
    if k > 0 {
      assert a[0] == a[..k][0] == b[..k][0] == b[0];
      assert a[1..][..k - 1] == a[..k][1..] == b[..k][1..] == b[1..][..k - 1];
      FirstDifferenceDecides(a[1..], b[1..], k - 1);
    }
  }

  // ---- Sorting and deduplication ----

  predicate AtMost(a: string, b: string) {
    !Less(b, a)
  }

  lemma AtMostOrder()
    ensures Sorting.TotalPreorder(AtMost)
    ensures forall s :: Sorting.NoTies(AtMost, s)
  {
    forall x, y ensures AtMost(x, y) || AtMost(y, x) { LessAsymmetric(x, y); }
    forall x, y, z | AtMost(x, y) && AtMost(y, z) ensures AtMost(x, z) {
      LessTotal(x, y);
      LessTotal(y, z);
      if Less(z, x) && Less(x, y) { LessTransitive(z, x, y); }
    }
    forall x, y | AtMost(x, y) && AtMost(y, x) ensures x == y { LessTotal(x, y); }
  }

  ghost predicate StrictlySorted(s: seq<string>) {
    forall i, j :: 0 <= i < j < |s| ==> Less(s[i], s[j])
  }

  /** `slices.Sort`. */
  function Sort(s: seq<string>): (r: seq<string>)
    ensures Sorting.Sorted(AtMost, r)
    ensures multiset(r) == multiset(s)
    ensures forall x :: x in r <==> x in s
  {
    AtMostOrder();
    var r := Sorting.Sort(AtMost, s);
    Sorting.SameElements(r, s);
    r
  }

  /** `slices.Compact`: drops every element equal to the one before it. */
  function Compact(s: seq<string>): (r: seq<string>)
    requires Sorting.Sorted(AtMost, s)
    ensures StrictlySorted(r)
    ensures forall x :: x in r <==> x in s
    ensures s != [] ==> r != [] && r[0] == s[0]
  {
    if |s| <= 1 then s
    else
      var t := Compact(s[1..]);
      assert s == [s[0]] + s[1..];
      if s[0] == s[1] then t
      else
        assert forall x :: x in t ==> Less(s[0], x) by { AllAbove(s); }
        [s[0]] + t
  }

  lemma AllAbove(s: seq<string>)
    requires Sorting.Sorted(AtMost, s) && |s| > 1 && s[0] != s[1]
    ensures forall x :: x in s[1..] ==> Less(s[0], x)
  {
    LessTotal(s[0], s[1]);
    forall x | x in s[1..] ensures Less(s[0], x) {
      LessTotal(s[1], x);
      if Less(s[1], x) { LessTransitive(s[0], s[1], x); }
    }
  }

  /** `sortedUnique`: the strictly increasing list of the ids it is given. */
  function SortedUnique(ids: seq<string>): (r: seq<string>)
    ensures StrictlySorted(r)
    ensures forall x :: x in r <==> x in ids
  {
    Compact(Sort(ids))
  }

  /** A strictly sorted list is determined by its elements. */
  lemma {:induction false} StrictlySortedUnique(a: seq<string>, b: seq<string>)
    requires StrictlySorted(a) && StrictlySorted(b)
    requires forall x :: x in a <==> x in b
    ensures a == b
  {
    assert a == [] <==> b == [] by {
      assert a != [] ==> a[0] in b;
      assert b != [] ==> b[0] in a;
    }
    if a != [] {
      assert a[0] in b && b[0] in a;
      LessAsymmetric(a[0], b[0]);
      assert a[0] == b[0];
      assert a == [a[0]] + a[1..] && b == [b[0]] + b[1..];
      LessIrreflexive(a[0]);
      forall x ensures x in a[1..] <==> x in b[1..] {
        assert x in a <==> x in b;
      }
      StrictlySortedUnique(a[1..], b[1..]);
    }
  }
}
