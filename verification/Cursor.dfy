/**
 Cursor movement over a loaded snapshot. Positions run from -1 (unpositioned);
 any position at or past the end is exhausted.
 */
module Cursor {
  import opened Wrappers
  import opened Keys
  import opened Rows
  import Sorting

  /** `indexCursor && unique` is the only combination that collapses duplicate keys. */
  datatype Mode = Mode(indexCursor: bool, keysOnly: bool, reverse: bool, unique: bool)

  predicate Collapses(m: Mode) {
    m.unique && m.indexCursor
  }

  predicate SameKey(a: Key, b: Key) {
    CompareKeys(a, b) == 0
  }

  /** `a` comes strictly before `b` in the cursor's direction. */
  predicate Ahead(reverse: bool, a: Key, b: Key) {
    if reverse then CompareKeys(a, b) > 0 else CompareKeys(a, b) < 0
  }

  /** Rows whose keys never step back in the cursor's direction, as every loaded snapshot has them. */
  ghost predicate KeysInOrder(reverse: bool, s: seq<Row>) {
    forall i, j {:trigger Ahead(reverse, s[j].key, s[i].key)} ::
      0 <= i < j < |s| ==> !Ahead(reverse, s[j].key, s[i].key)
  }

  lemma AheadOrder(reverse: bool, a: Key, b: Key, c: Key)
    ensures SameKey(a, b) <==> !Ahead(reverse, a, b) && !Ahead(reverse, b, a)
    ensures SameKey(a, b) <==> SameKey(b, a)
    ensures !(Ahead(reverse, a, b) && Ahead(reverse, b, a))
    ensures !Ahead(reverse, b, a) && !Ahead(reverse, c, b) ==> !Ahead(reverse, c, a)
    ensures Ahead(reverse, a, b) && !Ahead(reverse, c, b) ==> Ahead(reverse, a, c)
    ensures !Ahead(reverse, b, a) && Ahead(reverse, b, c) ==> Ahead(reverse, a, c)
  {
    KeyAntisymmetric(a, b);
    KeyAntisymmetric(b, c);
    KeyAntisymmetric(a, c);
    if CompareKeys(a, b) <= 0 && CompareKeys(b, c) <= 0 { KeyTransitive(a, b, c); }
    if CompareKeys(c, b) <= 0 && CompareKeys(b, a) <= 0 { KeyTransitive(c, b, a); }
  }

  // ---- Movement ----

  /** First position from `p` on whose key differs from `key`. */
  function SkipRun(s: seq<Row>, p: nat, key: Key): (q: nat)
    ensures p <= q && (p <= |s| ==> q <= |s|)
    ensures forall i :: p <= i < q ==> i < |s| && SameKey(s[i].key, key)
    ensures q < |s| ==> !SameKey(s[q].key, key)
    decreases |s| - p
  {
    if p < |s| && SameKey(s[p].key, key) then SkipRun(s, p + 1, key) else p
  }

  /** Where `Next` leaves the cursor. */
  function NextPos(m: Mode, s: seq<Row>, pos: int): (q: nat)
    requires -1 <= pos
    ensures pos < q
  {
    if Collapses(m) && 0 <= pos < |s| then SkipRun(s, pos + 1, s[pos].key) else pos + 1
  }

  /** A key `ContinueToKey` moves on from: the one it started from, or one with the target still ahead. */
  predicate Passes(reverse: bool, key: Key, from: Option<Key>, target: Key) {
    (from.Some? && SameKey(key, from.value)) || Ahead(reverse, key, target)
  }

  /** The loop of `ContinueToKey`, which also passes over rows with the key it started from. */
  function Scan(reverse: bool, s: seq<Row>, p: nat, from: Option<Key>, target: Key): (q: nat)
    ensures p <= q
    decreases |s| - p
  {
    if p < |s| && Passes(reverse, s[p].key, from, target) then Scan(reverse, s, p + 1, from, target) else p
  }

  function ContinuePos(m: Mode, s: seq<Row>, pos: int, target: Key): (q: nat)
    requires -1 <= pos
    ensures pos < q
  {
    Scan(m.reverse, s, pos + 1, if Collapses(m) && 0 <= pos < |s| then Some(s[pos].key) else None, target)
  }

  /** `Next` repeated until the key is at or past `target`, or the cursor is exhausted. */
  function NextUntil(m: Mode, s: seq<Row>, pos: int, target: Key): (q: nat)
    requires -1 <= pos
    decreases |s| - pos
  {
    var p := NextPos(m, s, pos);
    if p >= |s| || !Ahead(m.reverse, s[p].key, target) then p else NextUntil(m, s, p, target)
  }

  /** `count` times `Next`, stopping early at the end. */
  function AdvancePos(m: Mode, s: seq<Row>, pos: int, count: nat): (q: int)
    requires -1 <= pos
    ensures pos <= q && (count > 0 ==> pos < q)
    decreases count
  {
    if count == 0 then pos
    else
      var p := NextPos(m, s, pos);
      if p >= |s| then p else AdvancePos(m, s, p, count - 1)
  }

  // ---- ContinueToKey is repeated Next ----

  lemma {:induction false} ScanIgnoresPassedKey(reverse: bool, s: seq<Row>, p: nat, from: Key, target: Key)
    requires forall i :: p <= i < |s| ==> !SameKey(s[i].key, from)
    ensures Scan(reverse, s, p, Some(from), target) == Scan(reverse, s, p, None, target)
    decreases |s| - p
  {
    if p < |s| { ScanIgnoresPassedKey(reverse, s, p + 1, from, target); }
  }

  lemma {:induction false} ScanSkipsRun(reverse: bool, s: seq<Row>, p: nat, from: Key, target: Key)
    requires KeysInOrder(reverse, s) && 0 < p <= |s| && SameKey(s[p - 1].key, from)
    ensures Scan(reverse, s, p, Some(from), target) == Scan(reverse, s, SkipRun(s, p, from), None, target)
    decreases |s| - p
  {
    if p < |s| && SameKey(s[p].key, from) {
      ScanSkipsRun(reverse, s, p + 1, from, target);
    } else {
      forall i | p <= i < |s| ensures !SameKey(s[i].key, from) {
        AheadOrder(reverse, s[p].key, from, s[p - 1].key);
        AheadOrder(reverse, from, s[p].key, s[i].key);
        AheadOrder(reverse, s[p - 1].key, from, s[p].key);
        AheadOrder(reverse, s[i].key, from, s[p].key);
      }
      ScanIgnoresPassedKey(reverse, s, p, from, target);
    }
  }

  lemma {:induction false} ScanPassesRun(reverse: bool, s: seq<Row>, p: nat, key: Key, target: Key)
    requires Ahead(reverse, key, target)
    ensures Scan(reverse, s, p, None, target) == Scan(reverse, s, SkipRun(s, p, key), None, target)
    decreases |s| - p
  {
    if p < |s| && SameKey(s[p].key, key) {
      AheadOrder(reverse, s[p].key, key, target);
      ScanPassesRun(reverse, s, p + 1, key, target);
    }
  }

  lemma ContinueScansFromNext(m: Mode, s: seq<Row>, pos: int, target: Key)
    requires KeysInOrder(m.reverse, s) && -1 <= pos
    ensures ContinuePos(m, s, pos, target) == Scan(m.reverse, s, NextPos(m, s, pos), None, target)
  {
    if Collapses(m) && 0 <= pos < |s| {
      AheadOrder(m.reverse, s[pos].key, s[pos].key, target);
      ScanSkipsRun(m.reverse, s, pos + 1, s[pos].key, target);
    }
  }

  lemma ScanStepsLikeNext(m: Mode, s: seq<Row>, p: nat, target: Key)
    requires p < |s| && Ahead(m.reverse, s[p].key, target)
    ensures Scan(m.reverse, s, p, None, target) == Scan(m.reverse, s, NextPos(m, s, p), None, target)
  {
    if Collapses(m) { ScanPassesRun(m.reverse, s, p + 1, s[p].key, target); }
  }

  /**
   On a loaded snapshot `ContinueToKey` ends where repeating `Next` until the key
   is at or past the target ends, in all four modes and from every position.
   */
  lemma {:induction false} ContinueIsRepeatedNext(m: Mode, s: seq<Row>, pos: int, target: Key)
    requires KeysInOrder(m.reverse, s) && -1 <= pos
    ensures ContinuePos(m, s, pos, target) == NextUntil(m, s, pos, target)
    decreases |s| - pos
  {
    ContinueScansFromNext(m, s, pos, target);
    var p := NextPos(m, s, pos);
    if p < |s| && Ahead(m.reverse, s[p].key, target) {
      ContinueIsRepeatedNext(m, s, p, target);
      ContinueScansFromNext(m, s, p, target);
      ScanStepsLikeNext(m, s, p, target);
    }
  }

  // ---- Unique index cursors ----

  /** Unpositioned, exhausted, or on the first row of a run of equal keys. */
  ghost predicate AtRunHead(s: seq<Row>, pos: int) {
    0 < pos < |s| ==> !SameKey(s[pos - 1].key, s[pos].key)
  }

  /** A move from `pos` to `q` that keeps a cursor on run heads and strictly gains on the key. */
  ghost predicate Gains(m: Mode, s: seq<Row>, pos: int, q: int) {
    && AtRunHead(s, q)
    && (0 <= pos && q < |s| ==> pos < q && Ahead(m.reverse, s[pos].key, s[q].key))
  }

  lemma NextGains(m: Mode, s: seq<Row>, pos: int)
    requires KeysInOrder(m.reverse, s) && Collapses(m) && -1 <= pos
    ensures Gains(m, s, pos, NextPos(m, s, pos))
  {
    var q := NextPos(m, s, pos);
    if 0 <= pos && q < |s| {
      AheadOrder(m.reverse, s[q].key, s[pos].key, s[q].key);
      AheadOrder(m.reverse, s[pos].key, s[q - 1].key, s[q].key);
      AheadOrder(m.reverse, s[pos].key, s[pos].key, s[q - 1].key);
      if SameKey(s[q - 1].key, s[q].key) {
        AheadOrder(m.reverse, s[q - 1].key, s[q].key, s[pos].key);
        AheadOrder(m.reverse, s[q].key, s[q - 1].key, s[pos].key);
        assert false;
      }
    }
  }

  lemma GainsTransitive(m: Mode, s: seq<Row>, pos: int, p: int, q: int)
    requires 0 <= p < |s| && Gains(m, s, pos, p) && Gains(m, s, p, q)
    ensures Gains(m, s, pos, q)
  {
    if 0 <= pos && q < |s| {
      AheadOrder(m.reverse, s[p].key, s[pos].key, s[q].key);
      AheadOrder(m.reverse, s[pos].key, s[p].key, s[q].key);
    }
  }

  lemma {:induction false} NextUntilGains(m: Mode, s: seq<Row>, pos: int, target: Key)
    requires KeysInOrder(m.reverse, s) && Collapses(m) && -1 <= pos
    ensures Gains(m, s, pos, NextUntil(m, s, pos, target))
    decreases |s| - pos
  {
    NextGains(m, s, pos);
    var p := NextPos(m, s, pos);
    if p < |s| && Ahead(m.reverse, s[p].key, target) {
      NextUntilGains(m, s, p, target);
      GainsTransitive(m, s, pos, p, NextUntil(m, s, pos, target));
    }
  }

  lemma {:induction false} AdvanceGains(m: Mode, s: seq<Row>, pos: int, count: nat)
    requires KeysInOrder(m.reverse, s) && Collapses(m) && -1 <= pos && count > 0
    ensures Gains(m, s, pos, AdvancePos(m, s, pos, count))
    decreases count
  {
    NextGains(m, s, pos);
    var p := NextPos(m, s, pos);
    if p < |s| && count > 1 {
      AdvanceGains(m, s, p, count - 1);
      GainsTransitive(m, s, pos, p, AdvancePos(m, s, pos, count));
    }
  }

  // ---- Whole runs ----

  datatype Command = Next | ContinueTo(target: Key) | Advance(count: int)

  /** `Advance` refuses a count that is not positive and leaves the cursor alone. */
  predicate Refused(c: Command) {
    c.Advance? && c.count <= 0
  }

  function Move(m: Mode, s: seq<Row>, pos: int, c: Command): (q: int)
    requires -1 <= pos
    ensures if Refused(c) then q == pos else pos < q
  {
    match c
    case Next => NextPos(m, s, pos)
    case ContinueTo(target) => ContinuePos(m, s, pos, target)
    case Advance(count) => if count <= 0 then pos else AdvancePos(m, s, pos, count)
  }

  /** Positions of the rows a run of commands hands to the client, in order. */
  function Returned(m: Mode, s: seq<Row>, pos: int, cs: seq<Command>): (ps: seq<nat>)
    requires -1 <= pos
    ensures forall i :: 0 <= i < |ps| ==> ps[i] < |s|
    decreases |cs|
  {
    if cs == [] then []
    else
      var q := Move(m, s, pos, cs[0]);
      (if !Refused(cs[0]) && q < |s| then [q] else []) + Returned(m, s, q, cs[1..])
  }

  function FinalPos(m: Mode, s: seq<Row>, pos: int, cs: seq<Command>): (q: int)
    requires -1 <= pos
    ensures pos <= q
    decreases |cs|
  {
    if cs == [] then pos else FinalPos(m, s, Move(m, s, pos, cs[0]), cs[1..])
  }

  /** An exhausted cursor stays exhausted under every run of commands. */
  lemma {:induction false} StaysExhausted(m: Mode, s: seq<Row>, pos: int, cs: seq<Command>)
    requires |s| <= pos
    ensures Returned(m, s, pos, cs) == []
    decreases |cs|
  {
    if cs != [] { StaysExhausted(m, s, Move(m, s, pos, cs[0]), cs[1..]); }
  }

  lemma MoveGains(m: Mode, s: seq<Row>, pos: int, c: Command)
    requires KeysInOrder(m.reverse, s) && Collapses(m) && -1 <= pos && !Refused(c)
    ensures Gains(m, s, pos, Move(m, s, pos, c))
  {
    match c
    case Next => NextGains(m, s, pos);
    case ContinueTo(target) =>
      ContinueIsRepeatedNext(m, s, pos, target);
      NextUntilGains(m, s, pos, target);
    case Advance(count) => AdvanceGains(m, s, pos, count);
  }

  /** Rows returned from `pos` on: each heads its run and their keys gain strictly, starting from the key at `pos`. */
  ghost predicate StrictReturns(m: Mode, s: seq<Row>, pos: int, ps: seq<nat>) {
    && (forall i :: 0 <= i < |ps| ==> ps[i] < |s| && AtRunHead(s, ps[i]))
    && (forall i :: 0 <= i < |ps| && 0 <= pos ==> pos < |s| && Ahead(m.reverse, s[pos].key, s[ps[i]].key))
    && (forall i, j :: 0 <= i < j < |ps| ==> Ahead(m.reverse, s[ps[i]].key, s[ps[j]].key))
  }

  lemma StrictReturnsExtend(m: Mode, s: seq<Row>, pos: int, q: nat, ps: seq<nat>)
    requires q < |s| && Gains(m, s, pos, q) && StrictReturns(m, s, q, ps)
    ensures StrictReturns(m, s, pos, [q] + ps)
  {
    if 0 <= pos {
      forall i | 0 <= i < |ps| ensures Ahead(m.reverse, s[pos].key, s[ps[i]].key) {
        AheadOrder(m.reverse, s[q].key, s[ps[i]].key, s[q].key);
        AheadOrder(m.reverse, s[pos].key, s[q].key, s[ps[i]].key);
      }
    }
  }

  /**
   A unique index cursor under any interleaving of the three commands: it ends
   unpositioned, exhausted or on the first row of a run, every row it returned
   headed its run, and the returned keys are strictly monotone.
   */
  lemma {:induction false} UniqueRun(m: Mode, s: seq<Row>, pos: int, cs: seq<Command>)
    requires KeysInOrder(m.reverse, s) && Collapses(m) && -1 <= pos && AtRunHead(s, pos)
    ensures AtRunHead(s, FinalPos(m, s, pos, cs))
    ensures StrictReturns(m, s, pos, Returned(m, s, pos, cs))
    decreases |cs|
  {
    if cs != [] {
      var c := cs[0];
      var q := Move(m, s, pos, c);
      if !Refused(c) { MoveGains(m, s, pos, c); }
      UniqueRun(m, s, q, cs[1..]);
      if q >= |s| {
        StaysExhausted(m, s, q, cs[1..]);
      } else if !Refused(c) {
        StrictReturnsExtend(m, s, pos, q, Returned(m, s, q, cs[1..]));
      }
    }
  }

  // ---- A full run of Next ----

  /** Positions visited by `Next` until exhaustion. */
  function NextRun(m: Mode, s: seq<Row>, pos: int): (ps: seq<nat>)
    requires -1 <= pos
    ensures forall i :: 0 <= i < |ps| ==> ps[i] < |s|
    decreases |s| - pos
  {
    var p := NextPos(m, s, pos);
    if p >= |s| then [] else [p] + NextRun(m, s, p)
  }

  function Nexts(n: nat): (cs: seq<Command>)
    ensures |cs| == n && forall c :: c in cs ==> c == Next
  {
    seq(n, _ => Next)
  }

  /** Enough `Next` commands return the full run, and any more of them nothing else. */
  lemma {:induction false} NextsReturnFullRun(m: Mode, s: seq<Row>, pos: int, n: nat)
    requires -1 <= pos && |s| - pos <= n
    ensures Returned(m, s, pos, Nexts(n)) == NextRun(m, s, pos)
    decreases n
  {
    var p := NextPos(m, s, pos);
    if n > 0 {
      assert Nexts(n)[1..] == Nexts(n - 1);
      if p >= |s| { StaysExhausted(m, s, p, Nexts(n - 1)); } else { NextsReturnFullRun(m, s, p, n - 1); }
    }
  }

  // ---- Advance is repeated Next ----

  /**
   `Advance(count)` ends where `count` times `Next` ends if each of them returns
   a row, and is then on the last of those rows; otherwise it is exhausted.
   */
  lemma {:induction false} AdvanceIsRepeatedNext(m: Mode, s: seq<Row>, pos: int, count: nat)
    requires -1 <= pos && count > 0
    ensures var rows := Returned(m, s, pos, Nexts(count));
            var q := Move(m, s, pos, Advance(count));
            if |rows| == count then q == FinalPos(m, s, pos, Nexts(count)) == rows[count - 1] else q >= |s|
    ensures |Returned(m, s, pos, Nexts(count))| <= count
    decreases count
  {
    var p := NextPos(m, s, pos);
    assert Nexts(count)[1..] == Nexts(count - 1) && Nexts(count)[0] == Next;
    if p >= |s| {
      StaysExhausted(m, s, p, Nexts(count - 1));
    } else if count > 1 {
      AdvanceIsRepeatedNext(m, s, p, count - 1);
    }
  }

  /** A cursor that does not collapse keys counts rows: `Next` and `Advance` move by exactly as many as asked. */
  lemma {:induction false} PlainAdvance(m: Mode, s: seq<Row>, pos: int, count: nat)
    requires -1 <= pos && count > 0 && !(m.unique && m.indexCursor)
    ensures Move(m, s, pos, Next) == pos + 1
    ensures pos + count < |s| ==> Move(m, s, pos, Advance(count)) == pos + count
    ensures pos + count >= |s| ==> Move(m, s, pos, Advance(count)) >= |s|
    decreases count
  {
    assert !Collapses(m) && NextPos(m, s, pos) == pos + 1;
    assert AdvancePos(m, s, pos, count) == if pos + 1 >= |s| then pos + 1 else AdvancePos(m, s, pos + 1, count - 1);
    if count > 1 && pos + 1 < |s| { PlainAdvance(m, s, pos + 1, count - 1); }
  }

  /** The first of `NextRun` from `pos` at which the key of row `q` appears. */
  lemma {:induction false} VisitsKey(m: Mode, s: seq<Row>, pos: int, q: nat) returns (i: nat)
    requires KeysInOrder(m.reverse, s) && -1 <= pos && NextPos(m, s, pos) <= q < |s|
    ensures i < |NextRun(m, s, pos)| && SameKey(s[NextRun(m, s, pos)[i]].key, s[q].key)
    decreases |s| - pos
  {
    var p := NextPos(m, s, pos);
    AheadOrder(m.reverse, s[p].key, s[q].key, s[p].key);
    AheadOrder(m.reverse, s[p].key, s[p].key, s[p].key);
    if SameKey(s[p].key, s[q].key) {
      i := 0;
    } else {
      var next := NextPos(m, s, p);
      assert next <= q;
      i := VisitsKey(m, s, p, q);
      i := i + 1;
    }
  }

  ghost predicate StrictlyAhead(reverse: bool, ks: seq<Key>) {
    forall i, j :: 0 <= i < j < |ks| ==> Ahead(reverse, ks[i], ks[j])
  }

  function KeysAt(s: seq<Row>, ps: seq<nat>): (ks: seq<Key>)
    requires forall i :: 0 <= i < |ps| ==> ps[i] < |s|
    ensures |ks| == |ps| && forall i :: 0 <= i < |ps| ==> ks[i] == s[ps[i]].key
  {
    seq(|ps|, i requires 0 <= i < |ps| => s[ps[i]].key)
  }

  /** The keys of a full run of `Next`. */
  function RunKeys(m: Mode, s: seq<Row>): seq<Key> {
    KeysAt(s, NextRun(m, s, -1))
  }

  lemma RunKeysStrict(m: Mode, s: seq<Row>)
    requires KeysInOrder(m.reverse, s) && Collapses(m)
    ensures StrictlyAhead(m.reverse, RunKeys(m, s))
  {
    NextsReturnFullRun(m, s, -1, |s| + 1);
    UniqueRun(m, s, -1, Nexts(|s| + 1));
  }

  lemma StrictMatchesOnce(reverse: bool, ks: seq<Key>, key: Key, i: nat, j: nat)
    requires StrictlyAhead(reverse, ks) && i < |ks| && j < |ks|
    requires SameKey(ks[i], key) && SameKey(ks[j], key)
    ensures i == j
  {
    AheadOrder(reverse, ks[i], key, ks[j]);
    AheadOrder(reverse, ks[j], key, ks[i]);
  }

  /** A full run of a unique index cursor visits the key of every row exactly once. */
  lemma VisitsEachKeyOnce(m: Mode, s: seq<Row>, q: nat)
    requires KeysInOrder(m.reverse, s) && Collapses(m) && q < |s|
    ensures exists i :: 0 <= i < |RunKeys(m, s)| && SameKey(RunKeys(m, s)[i], s[q].key)
    ensures forall i: nat, j: nat | i < |RunKeys(m, s)| && j < |RunKeys(m, s)| ::
              SameKey(RunKeys(m, s)[i], s[q].key) && SameKey(RunKeys(m, s)[j], s[q].key) ==> i == j
  {
    var ks := RunKeys(m, s);
    var v := VisitsKey(m, s, -1, q);
    assert SameKey(ks[v], s[q].key);
    RunKeysStrict(m, s);
    forall i: nat, j: nat | i < |ks| && j < |ks| && SameKey(ks[i], s[q].key) && SameKey(ks[j], s[q].key)
      ensures i == j
    {
      StrictMatchesOnce(m.reverse, ks, s[q].key, i, j);
    }
  }

  // ---- Forward and backward runs mirror each other ----

  predicate KeyAtMost(a: Key, b: Key) {
    CompareKeys(a, b) <= 0
  }

  lemma KeyAtMostOrder()
    ensures Sorting.TotalPreorder(KeyAtMost)
    ensures forall a, b :: Sorting.Tied(KeyAtMost, a, b) <==> SameKey(a, b)
    ensures forall a, b :: !KeyAtMost(b, a) <==> Ahead(false, a, b)
    ensures forall a, b :: Ahead(true, a, b) <==> Ahead(false, b, a)
  {
    forall a, b ensures CompareKeys(b, a) == -CompareKeys(a, b) { KeyAntisymmetric(a, b); }
    forall a, b, c | KeyAtMost(a, b) && KeyAtMost(b, c) ensures KeyAtMost(a, c) { KeyTransitive(a, b, c); }
  }

  lemma RunCovers(m: Mode, s: seq<Row>, m': Mode, s': seq<Row>)
    requires KeysInOrder(m'.reverse, s') && forall x :: x in s ==> x in s'
    ensures Sorting.Covers(KeyAtMost, RunKeys(m, s), RunKeys(m', s'))
  {
    var a, b := RunKeys(m, s), RunKeys(m', s');
    forall x | x in a ensures Sorting.Covered(KeyAtMost, x, b) {
      var i :| 0 <= i < |a| && a[i] == x;
      var row := s[NextRun(m, s, -1)[i]];
      assert row in s';
      var q :| 0 <= q < |s'| && s'[q] == row;
      var j := VisitsKey(m', s', -1, q);
      assert SameKey(b[j], x);
      KeyAntisymmetric(b[j], x);
      assert b[j] in b;
    }
  }

  lemma ReversedInOrder(s: seq<Row>)
    requires KeysInOrder(false, s)
    ensures KeysInOrder(true, Sorting.Reverse(s))
  {
    KeyAtMostOrder();
  }

  /** One sequence of keys is the other read backwards. */
  ghost predicate Mirrors(a: seq<Key>, b: seq<Key>) {
    |a| == |b| && forall i :: 0 <= i < |a| ==> SameKey(a[i], b[|b| - 1 - i])
  }

  /** Two strict runs in opposite directions over the same keys mirror each other. */
  lemma StrictRunsMirror(a: seq<Key>, b: seq<Key>)
    requires StrictlyAhead(false, a) && StrictlyAhead(true, b)
    requires Sorting.Covers(KeyAtMost, a, b) && Sorting.Covers(KeyAtMost, b, a)
    ensures Mirrors(a, b)
  {
    KeyAtMostOrder();
    var c := Sorting.Reverse(b);
    forall i, j | 0 <= i < j < |c| ensures !KeyAtMost(c[j], c[i]) {
      assert Ahead(true, b[|b| - 1 - j], b[|b| - 1 - i]);
    }
    Sorting.SameElements(b, c);
    forall x | x in a ensures Sorting.Covered(KeyAtMost, x, c) {
      assert Sorting.Covered(KeyAtMost, x, b);
    }
    Sorting.StrictlySortedAgree(KeyAtMost, a, c);
    forall i | 0 <= i < |a| ensures SameKey(a[i], b[|b| - 1 - i]) {
      assert Sorting.Tied(KeyAtMost, a[i], c[i]);
    }
  }

  /** The next-unique and prev-unique key sequences of a snapshot and its reversal are mirror images. */
  lemma UniqueRunsMirror(m: Mode, m': Mode, s: seq<Row>)
    requires Collapses(m) && Collapses(m') && !m.reverse && m'.reverse
    requires KeysInOrder(false, s)
    ensures KeysInOrder(true, Sorting.Reverse(s))
    ensures Mirrors(RunKeys(m, s), RunKeys(m', Sorting.Reverse(s)))
  {
    var r := Sorting.Reverse(s);
    ReversedInOrder(s);
    RunKeysStrict(m, s);
    RunKeysStrict(m', r);
    Sorting.SameElements(s, r);
    RunCovers(m, s, m', r);
    RunCovers(m', r, m, s);
    StrictRunsMirror(RunKeys(m, s), RunKeys(m', r));
  }

  // ---- Which row stands for a duplicated key ----

  /** The record W3C asks every unique cursor for: the first with its key in forward order. */
  ghost predicate FirstWithKey(s: seq<Row>, q: nat)
    requires q < |s|
  {
    forall i :: 0 <= i < q ==> !SameKey(s[i].key, s[q].key)
  }

  /** No other row of the snapshot has the key. */
  ghost predicate OnlyWithKey(s: seq<Row>, q: nat)
    requires q < |s|
  {
    forall i :: 0 <= i < |s| && i != q ==> !SameKey(s[i].key, s[q].key)
  }

  /** A row that heads its run from the far end is the last with its key in forward order. */
  lemma LastWithKey(s: seq<Row>, q: nat, i: nat)
    requires KeysInOrder(false, s) && q < i < |s| && !SameKey(s[q + 1].key, s[q].key)
    ensures !SameKey(s[i].key, s[q].key)
  {
    AheadOrder(false, s[q].key, s[q + 1].key, s[i].key);
    AheadOrder(false, s[q + 1].key, s[q].key, s[q].key);
    AheadOrder(false, s[i].key, s[q].key, s[q].key);
    assert !Ahead(false, s[q + 1].key, s[q].key) && (i > q + 1 ==> !Ahead(false, s[i].key, s[q + 1].key));
  }

  /** A prev-unique cursor returns the last row with its key in forward order. */
  lemma PrevUniqueReturnsLastOfRun(m: Mode, s: seq<Row>, cs: seq<Command>, p: nat)
    requires Collapses(m) && m.reverse && KeysInOrder(false, s)
    requires p in Returned(m, Sorting.Reverse(s), -1, cs)
    ensures p < |s| && forall i :: |s| - 1 - p < i < |s| ==> !SameKey(s[i].key, s[|s| - 1 - p].key)
  {
    ReversedInOrder(s);
    UniqueRun(m, Sorting.Reverse(s), -1, cs);
    assert p < |s| && AtRunHead(Sorting.Reverse(s), p);
    var q := |s| - 1 - p;
    forall i | q < i < |s| ensures !SameKey(s[i].key, s[q].key) { LastWithKey(s, q, i); }
  }

  /** So it returns the record W3C asks for exactly when no other row has the key. */
  lemma PrevUniqueMeetsW3CExactly(m: Mode, s: seq<Row>, cs: seq<Command>, p: nat)
    requires Collapses(m) && m.reverse && KeysInOrder(false, s)
    requires p in Returned(m, Sorting.Reverse(s), -1, cs)
    ensures p < |s|
    ensures FirstWithKey(s, |s| - 1 - p) <==> OnlyWithKey(s, |s| - 1 - p)
  {
    PrevUniqueReturnsLastOfRun(m, s, cs, p);
  }

  /** Two rows with one key: the cursor returns the second, W3C asks for the first. */
  lemma PrevUniqueMissesW3C(key: Key, a: Row, b: Row)
    requires a == Row(key, "a", String("a"), map[]) && b == Row(key, "b", String("b"), map[])
    ensures KeysInOrder(false, [a, b])
    ensures Returned(Mode(true, false, true, true), Sorting.Reverse([a, b]), -1, [Next]) == [0]
    ensures Sorting.Reverse([a, b])[0] == b != a
    ensures FirstWithKey([a, b], 0) && !FirstWithKey([a, b], 1)
  {
    KeyAntisymmetric(key, key);
    var m, r := Mode(true, false, true, true), Sorting.Reverse([a, b]);
    assert r == [b, a];
    assert NextPos(m, r, -1) == 0;
    assert Move(m, r, -1, Next) == 0;
  }
}
