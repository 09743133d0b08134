/** Sorting, filtering and reversing a sequence, over any total preorder. */
module Sorting {
  ghost predicate TotalPreorder<T(!new)>(le: (T, T) -> bool) {
    && (forall x, y :: le(x, y) || le(y, x))
    && (forall x, y, z :: le(x, y) && le(y, z) ==> le(x, z))
  }

  ghost predicate Sorted<T>(le: (T, T) -> bool, s: seq<T>) {
    forall i, j :: 0 <= i < j < |s| ==> le(s[i], s[j])
  }

  /** Elements of `s` that tie are identical. */
  ghost predicate NoTies<T(!new)>(le: (T, T) -> bool, s: seq<T>) {
    forall x, y :: x in s && y in s && le(x, y) && le(y, x) ==> x == y
  }

  lemma SameElements<T>(a: seq<T>, b: seq<T>)
    requires multiset(a) == multiset(b)
    ensures |a| == |b|
    ensures forall x :: x in a <==> x in b
  {
    assert |a| == |multiset(a)| && |b| == |multiset(b)|;
    assert forall x :: x in a <==> x in multiset(a);
    assert forall x :: x in b <==> x in multiset(b);
  }

  // ---- Sorting ----

  function Insert<T(!new)>(le: (T, T) -> bool, x: T, s: seq<T>): (r: seq<T>)
    requires TotalPreorder(le) && Sorted(le, s)
    ensures Sorted(le, r)
    ensures multiset(r) == multiset(s) + multiset{x}
    ensures forall y :: y in r <==> y in s || y == x
  {
    if s == [] then [x]
    else if le(x, s[0]) then [x] + s
    else
      assert s == [s[0]] + s[1..];
      var t := Insert(le, x, s[1..]);
      assert forall y :: y in t ==> le(s[0], y);
      [s[0]] + t
  }

  /** Some sorted arrangement of `s`. */
  function Sort<T(!new)>(le: (T, T) -> bool, s: seq<T>): (r: seq<T>)
    requires TotalPreorder(le)
    ensures Sorted(le, r)
    ensures multiset(r) == multiset(s)
  {
    if s == [] then []
    else
      assert s == [s[0]] + s[1..];
      Insert(le, s[0], Sort(le, s[1..]))
  }

  /** Two sorted arrangements of one tie-free multiset begin alike. */
  lemma SameHead<T(!new)>(le: (T, T) -> bool, a: seq<T>, b: seq<T>)
    requires (forall x :: le(x, x)) && Sorted(le, a) && Sorted(le, b) && a != []
    requires multiset(a) == multiset(b) && NoTies(le, a)
    ensures b != [] && a[0] == b[0]
  {
    SameElements(a, b);
    assert a[0] in a && b[0] in b;
    FirstAtMost(le, a, b[0]);
    FirstAtMost(le, b, a[0]);
  }

  lemma SortedTail<T(!new)>(le: (T, T) -> bool, s: seq<T>)
    requires Sorted(le, s) && s != []
    ensures Sorted(le, s[1..])
  {
  }

  lemma NoTiesTail<T(!new)>(le: (T, T) -> bool, s: seq<T>)
    requires NoTies(le, s) && s != []
    ensures NoTies(le, s[1..])
  {
  }

  /** Without ties there is only one sorted arrangement. */
  lemma {:induction false} SortedArrangementUnique<T(!new)>(le: (T, T) -> bool, a: seq<T>, b: seq<T>)
    requires (forall x :: le(x, x)) && Sorted(le, a) && Sorted(le, b)
    requires multiset(a) == multiset(b) && NoTies(le, a)
    ensures a == b
  {
    if a == [] {
      assert |multiset(b)| == 0;
    } else {
      SameHead(le, a, b);
      assert multiset(a[1..]) == multiset(b[1..]) by { TailMultiset(a); TailMultiset(b); }
      SortedTail(le, a);
      SortedTail(le, b);
      NoTiesTail(le, a);
      SortedArrangementUnique(le, a[1..], b[1..]);
      assert a == [a[0]] + a[1..] && b == [b[0]] + b[1..];
    }
  }

  lemma FirstAtMost<T(!new)>(le: (T, T) -> bool, s: seq<T>, x: T)
    requires le(x, x) && Sorted(le, s) && x in s
    ensures le(s[0], x)
  {
  }

  lemma TailMultiset<T>(s: seq<T>)
    requires s != []
    ensures multiset(s[1..]) == multiset(s) - multiset{s[0]}
  {
    assert s == [s[0]] + s[1..];
  }

  // ---- Filtering ----

  function Filter<T(!new)>(keep: T -> bool, s: seq<T>): (r: seq<T>)
    ensures forall x :: x in r <==> x in s && keep(x)
  {
    if s == [] then []
    else
      assert s == [s[0]] + s[1..];
      if keep(s[0]) then [s[0]] + Filter(keep, s[1..]) else Filter(keep, s[1..])
  }

  lemma {:induction false} FilterAppend<T(!new)>(keep: T -> bool, a: seq<T>, b: seq<T>)
    ensures Filter(keep, a + b) == Filter(keep, a) + Filter(keep, b)
  {
    if a == [] {
      assert a + b == b;
    } else {
      assert (a + b)[1..] == a[1..] + b;
      FilterAppend(keep, a[1..], b);
    }
  }

  lemma FilterNext<T(!new)>(keep: T -> bool, s: seq<T>, i: nat)
    requires i < |s|
    ensures Filter(keep, s[..i + 1]) == Filter(keep, s[..i]) + if keep(s[i]) then [s[i]] else []
  {
    assert s[..i + 1] == s[..i] + [s[i]];
    FilterAppend(keep, s[..i], [s[i]]);
  }

  lemma {:induction false} FilterCount<T(!new)>(keep: T -> bool, s: seq<T>, x: T)
    ensures multiset(Filter(keep, s))[x] == if keep(x) then multiset(s)[x] else 0
  {
    if s != [] {
      assert s == [s[0]] + s[1..];
      FilterCount(keep, s[1..], x);
    }
  }

  /** Filtering a permutation gives a permutation. */
  lemma FilterPermutes<T(!new)>(keep: T -> bool, a: seq<T>, b: seq<T>)
    requires multiset(a) == multiset(b)
    ensures multiset(Filter(keep, a)) == multiset(Filter(keep, b))
  {
    forall x ensures multiset(Filter(keep, a))[x] == multiset(Filter(keep, b))[x] {
      FilterCount(keep, a, x);
      FilterCount(keep, b, x);
    }
  }

  lemma {:induction false} FilterSorted<T(!new)>(le: (T, T) -> bool, keep: T -> bool, s: seq<T>)
    requires Sorted(le, s)
    ensures Sorted(le, Filter(keep, s))
  {
    if s != [] {
      FilterSorted(le, keep, s[1..]);
      assert forall x :: x in s[1..] ==> le(s[0], x);
    }
  }

  lemma {:induction false} FilterAtMostOne<T(!new)>(keep: T -> bool, s: seq<T>)
    ensures |Filter(keep, s)| <= 1 <==> forall i, j :: 0 <= i < j < |s| ==> !(keep(s[i]) && keep(s[j]))
    ensures |Filter(keep, s)| == 0 <==> forall i :: 0 <= i < |s| ==> !keep(s[i])
  {
    if s != [] {
      FilterAtMostOne(keep, s[1..]);
      assert forall i :: 0 < i < |s| ==> s[i] == s[1..][i - 1];
      assert forall i :: 0 <= i < |s| - 1 ==> s[1..][i] == s[i + 1];
    }
  }

  lemma FilterSole<T(!new)>(keep: T -> bool, s: seq<T>, x: T)
    requires |Filter(keep, s)| == 1 && x in s && keep(x)
    ensures Filter(keep, s)[0] == x
  {
    assert x in Filter(keep, s);
  }

  /** Two positions with one value, carried over to a permutation. */
  lemma {:induction false} RepeatedPositions<T(!new)>(s: seq<T>, x: T)
    ensures multiset(s)[x] >= 1 <==> exists i :: 0 <= i < |s| && s[i] == x
    ensures multiset(s)[x] >= 2 <==> exists i, j :: 0 <= i < j < |s| && s[i] == x && s[j] == x
  {
    if s != [] {
      RepeatedPositions(s[1..], x);
      assert s == [s[0]] + s[1..];
      assert forall i :: 0 < i < |s| ==> s[i] == s[1..][i - 1];
      assert forall i :: 0 <= i < |s| - 1 ==> s[1..][i] == s[i + 1];
    }
  }

  // ---- Reversing ----

  function Reverse<T>(s: seq<T>): (r: seq<T>)
    ensures |r| == |s| && forall i :: 0 <= i < |s| ==> r[i] == s[|s| - 1 - i]
    ensures multiset(r) == multiset(s)
  {
    if s == [] then []
    else
      assert s == [s[0]] + s[1..];
      Reverse(s[1..]) + [s[0]]
  }

  lemma ReverseSorted<T(!new)>(le: (T, T) -> bool, ge: (T, T) -> bool, s: seq<T>)
    requires Sorted(le, s) && forall x, y :: ge(x, y) <==> le(y, x)
    ensures Sorted(ge, Reverse(s))
  {
  }

  lemma {:induction false} FilterReverse<T(!new)>(keep: T -> bool, s: seq<T>)
    ensures Filter(keep, Reverse(s)) == Reverse(Filter(keep, s))
  {
    if s != [] {
      FilterReverse(keep, s[1..]);
      FilterAppend(keep, Reverse(s[1..]), [s[0]]);
      assert Filter(keep, [s[0]]) == if keep(s[0]) then [s[0]] else [];
    }
  }

  // ---- Strictly sorted sequences are determined up to ties ----

  ghost predicate Tied<T>(le: (T, T) -> bool, x: T, y: T) {
    le(x, y) && le(y, x)
  }

  ghost predicate StrictlySorted<T>(le: (T, T) -> bool, s: seq<T>) {
    forall i, j :: 0 <= i < j < |s| ==> !le(s[j], s[i])
  }

  ghost predicate Covered<T(!new)>(le: (T, T) -> bool, x: T, b: seq<T>) {
    exists y :: y in b && Tied(le, x, y)
  }

  /** Every element of `a` ties with some element of `b`. */
  ghost predicate Covers<T(!new)>(le: (T, T) -> bool, a: seq<T>, b: seq<T>) {
    forall x {:trigger Covered(le, x, b)} :: x in a ==> Covered(le, x, b)
  }

  lemma TailCovers<T(!new)>(le: (T, T) -> bool, a: seq<T>, b: seq<T>)
    requires TotalPreorder(le) && StrictlySorted(le, a) && Covers(le, a, b)
    requires a != [] && b != [] && Tied(le, a[0], b[0])
    ensures Covers(le, a[1..], b[1..])
  {
    assert b == [b[0]] + b[1..];
    forall x | x in a[1..] ensures Covered(le, x, b[1..]) {
      var i :| 0 <= i < |a[1..]| && a[1..][i] == x;
      assert x == a[i + 1] && x in a && Covered(le, x, b);
      var y :| y in b && Tied(le, x, y);
      assert !le(x, a[0]);
    }
  }

  lemma HeadAtMost<T(!new)>(le: (T, T) -> bool, a: seq<T>, b: seq<T>)
    requires TotalPreorder(le) && StrictlySorted(le, b) && Covers(le, a, b) && a != []
    ensures b != [] && le(b[0], a[0])
  {
    assert a[0] in a && Covered(le, a[0], b);
    var y :| y in b && Tied(le, a[0], y);
    assert le(b[0], y);
  }

  lemma {:induction false} StrictlySortedAgree<T(!new)>(le: (T, T) -> bool, a: seq<T>, b: seq<T>)
    requires TotalPreorder(le) && StrictlySorted(le, a) && StrictlySorted(le, b)
    requires Covers(le, a, b) && Covers(le, b, a)
    ensures |a| == |b| && forall i :: 0 <= i < |a| ==> Tied(le, a[i], b[i])
  {
    if a != [] { HeadAtMost(le, a, b); }
    if b != [] { HeadAtMost(le, b, a); }
    if a != [] {
      TailCovers(le, a, b);
      TailCovers(le, b, a);
      StrictlySortedAgree(le, a[1..], b[1..]);
      assert forall k :: 1 <= k < |a| ==> a[k] == a[1..][k - 1] && b[k] == b[1..][k - 1];
    }
  }

  // ---- Scanning for the best ----

  ghost predicate StrictWeakOrder<T(!new)>(better: (T, T) -> bool) {
    && (forall x, y :: !(better(x, y) && better(y, x)))
    && (forall x, y, z :: better(x, z) ==> better(x, y) || better(y, z))
  }

  /** Position `p` is unbeaten, and better than everything before it. */
  ghost predicate FirstBest<T>(better: (T, T) -> bool, s: seq<T>, p: nat) {
    && p < |s|
    && (forall k :: 0 <= k < |s| ==> !better(s[k], s[p]))
    && (forall k :: 0 <= k < p ==> better(s[p], s[k]))
  }

  /** The position a scan from the left ends on that moves to every better element. */
  function Scan<T>(better: (T, T) -> bool, s: seq<T>): (p: nat)
    requires s != []
    ensures p < |s|
  {
    var n := |s| - 1;
    if n == 0 then 0
    else
      var p := Scan(better, s[..n]);
      if better(s[n], s[p]) then n else p
  }

  lemma {:induction false} ScanFindsFirstBest<T(!new)>(better: (T, T) -> bool, s: seq<T>)
    requires StrictWeakOrder(better) && s != []
    ensures FirstBest(better, s, Scan(better, s))
  {
    var n := |s| - 1;
    if n > 0 {
      ScanFindsFirstBest(better, s[..n]);
      var q := Scan(better, s[..n]);
      assert forall k :: 0 <= k < n ==> s[..n][k] == s[k];
      assert forall k :: 0 <= k < n && better(s[n], s[q]) ==> better(s[n], s[k]) || better(s[k], s[q]);
    }
  }

  lemma FirstBestUnique<T>(better: (T, T) -> bool, s: seq<T>, p: nat, q: nat)
    requires FirstBest(better, s, p) && FirstBest(better, s, q)
    ensures p == q
  {
    assert !better(s[p], s[q]) && !better(s[q], s[p]);
  }
}
