/** Cursor rows: their order, the query filter, and what loading a snapshot determines. */
module Rows {
  import opened Wrappers
  import opened Keys
  import opened Sorting

  /** One provider-side cursor row. */
  datatype Row = Row(key: Key, primaryKey: string, primaryKeyValue: Key, record: map<string, string>)

  /** Row order: by key, then by primary key value. */
  function CompareRows(a: Row, b: Row): int {
    var c := CompareKeys(a.key, b.key);
    if c == 0 then CompareKeys(a.primaryKeyValue, b.primaryKeyValue) else c
  }

  predicate Ascending(a: Row, b: Row) {
    CompareRows(a, b) <= 0
  }

  predicate Descending(a: Row, b: Row) {
    CompareRows(a, b) >= 0
  }

  /** The order a cursor sorts by: a reverse cursor flips the tie-break as well. */
  function Direction(reverse: bool): (Row, Row) -> bool {
    if reverse then Descending else Ascending
  }

  lemma RowOrder(a: Row, b: Row, c: Row)
    ensures CompareRows(b, a) == -CompareRows(a, b)
    ensures CompareRows(a, b) <= 0 && CompareRows(b, c) <= 0 ==> CompareRows(a, c) <= 0
  {
    KeyAntisymmetric(a.key, b.key);
    KeyAntisymmetric(a.primaryKeyValue, b.primaryKeyValue);
    if CompareRows(a, b) <= 0 && CompareRows(b, c) <= 0 {
      KeyTransitive(a.key, b.key, c.key);
      if CompareKeys(a.key, c.key) == 0 { KeyTransitive(a.primaryKeyValue, b.primaryKeyValue, c.primaryKeyValue); }
    }
  }

  lemma DirectionOrder(reverse: bool)
    ensures TotalPreorder(Direction(reverse))
    ensures forall a, b :: Direction(!reverse)(a, b) <==> Direction(reverse)(b, a)
  {
    forall a, b ensures CompareRows(b, a) == -CompareRows(a, b) { RowOrder(a, b, a); }
    forall a, b, c | Ascending(a, b) && Ascending(b, c) ensures Ascending(a, c) { RowOrder(a, b, c); }
    forall a, b, c | Descending(a, b) && Descending(b, c) ensures Descending(a, c) { RowOrder(c, b, a); }
  }

  // ---- Filtering ----

  function Matches(row: Row, query: Option<Query>): Result<bool, QueryError> {
    if query.None? then Success(true) else MatchQuery(row.key, query.value)
  }

  function Keeps(query: Option<Query>): Row -> bool {
    (row: Row) => Matches(row, query) == Success(true)
  }

  ghost predicate NoFailure(rows: seq<Row>, query: Option<Query>) {
    forall row :: row in rows ==> Matches(row, query).Success?
  }

  /** The one error a query can raise. */
  function ErrorOf(query: Query): QueryError {
    if query == Within(None) then RangeRequired else BadKey
  }

  /** What `ApplyIndexedDBQuery` returns: the matching rows in order, unless some row fails. */
  ghost function ApplyQuery(rows: seq<Row>, query: Option<Query>): Result<seq<Row>, QueryError> {
    if query.None? then Success(rows)
    else if NoFailure(rows, query) then Success(Filter(Keeps(query), rows))
    else Failure(ErrorOf(query.value))
  }

  /** The first `i` rows are filtered, and none of them failed. */
  ghost predicate Filtered(rows: seq<Row>, query: Option<Query>, i: nat, filtered: seq<Row>) {
    i <= |rows| && NoFailure(rows[..i], query) && filtered == Filter(Keeps(query), rows[..i])
  }

  lemma FilteredNext(rows: seq<Row>, query: Option<Query>, i: nat, filtered: seq<Row>)
    requires Filtered(rows, query, i, filtered) && i < |rows| && Matches(rows[i], query).Success?
    ensures Filtered(rows, query, i + 1, if Matches(rows[i], query).value then filtered + [rows[i]] else filtered)
  {
    assert rows[..i + 1] == rows[..i] + [rows[i]];
    FilterNext(Keeps(query), rows, i);
  }

  lemma FailureIsTheQuerys(row: Row, query: Option<Query>)
    requires Matches(row, query).Failure?
    ensures query.Some? && Matches(row, query).error == ErrorOf(query.value)
  {
  }

  method ApplyIndexedDBQuery(rows: seq<Row>, query: Option<Query>) returns (r: Result<seq<Row>, QueryError>)
    ensures r == ApplyQuery(rows, query)
  {
    if query.None? {
      return Success(rows);
    }
    var filtered := [];
    for i := 0 to |rows|
      invariant Filtered(rows, query, i, filtered)
    {
      var m := Matches(rows[i], query);
      if m.Failure? {
        FailureIsTheQuerys(rows[i], query);
        assert rows[i] in rows;
        return Failure(m.error);
      }
      FilteredNext(rows, query, i, filtered);
      if m.value {
        filtered := filtered + [rows[i]];
      }
    }
    assert rows[..|rows|] == rows;
    return Success(filtered);
  }

  /** A query keeps exactly the rows it matches, as often as they occur, and fails exactly on one it cannot match. */
  lemma QueryKeepsMatching(rows: seq<Row>, query: Query, row: Row)
    ensures ApplyQuery(rows, None) == Success(rows)
    ensures ApplyQuery(rows, Some(query)).Failure? <==> exists x :: x in rows && MatchQuery(x.key, query).Failure?
    ensures ApplyQuery(rows, Some(query)).Success? ==>
              multiset(ApplyQuery(rows, Some(query)).value)[row]
              == if MatchQuery(row.key, query) == Success(true) then multiset(rows)[row] else 0
  {
    if x :| x in rows && MatchQuery(x.key, query).Failure? { assert Matches(x, Some(query)).Failure?; }
    if !NoFailure(rows, Some(query)) {
      var x :| x in rows && Matches(x, Some(query)).Failure?;
      assert MatchQuery(x.key, query).Failure?;
    }
    FilterCount(Keeps(Some(query)), rows, row);
  }

  // ---- What a load determines ----

  /** `outcome` is one that loading `rows` may have: some sorted arrangement of them, filtered. */
  ghost predicate Loads(reverse: bool, rows: seq<Row>, query: Option<Query>, outcome: Result<seq<Row>, QueryError>) {
    exists t :: multiset(t) == multiset(rows) && Sorted(Direction(reverse), t) && outcome == ApplyQuery(t, query)
  }

  /** No two different rows compare equal on both key and primary key. */
  ghost predicate DistinctRows(rows: seq<Row>) {
    forall x, y :: x in rows && y in rows && CompareRows(x, y) == 0 ==> x == y
  }

  lemma DistinctNoTies(reverse: bool, rows: seq<Row>)
    requires DistinctRows(rows)
    ensures NoTies(Direction(reverse), rows)
  {
    forall x, y | Direction(reverse)(x, y) && Direction(reverse)(y, x) ensures CompareRows(x, y) == 0 {
      RowOrder(x, y, x);
    }
  }

  lemma ApplyPermutes(a: seq<Row>, b: seq<Row>, query: Option<Query>)
    requires multiset(a) == multiset(b)
    ensures ApplyQuery(a, query).Success? <==> ApplyQuery(b, query).Success?
    ensures ApplyQuery(a, query).Success? ==>
              multiset(ApplyQuery(a, query).value) == multiset(ApplyQuery(b, query).value)
  {
    SameElements(a, b);
    FilterPermutes(Keeps(query), a, b);
  }

  lemma ApplySorted(le: (Row, Row) -> bool, rows: seq<Row>, query: Option<Query>)
    requires Sorted(le, rows) && ApplyQuery(rows, query).Success?
    ensures Sorted(le, ApplyQuery(rows, query).value)
    ensures forall x :: x in ApplyQuery(rows, query).value ==> x in rows
  {
    FilterSorted(le, Keeps(query), rows);
  }

  /**
   When no two rows tie, loading any permutation of them has the same outcome,
   and it is the one obtained by filtering first and sorting afterwards.
   */
  lemma LoadPermutation(reverse: bool, rows: seq<Row>, rows': seq<Row>, query: Option<Query>,
                        o: Result<seq<Row>, QueryError>, o': Result<seq<Row>, QueryError>)
    requires DistinctRows(rows) && multiset(rows) == multiset(rows')
    requires Loads(reverse, rows, query, o) && Loads(reverse, rows', query, o')
    ensures o == o'
    ensures o.Success? <==> ApplyQuery(rows, query).Success?
    ensures TotalPreorder(Direction(reverse))
    ensures o.Success? ==> o.value == Sort(Direction(reverse), ApplyQuery(rows, query).value)
  {
    var le := Direction(reverse);
    DirectionOrder(reverse);
    var t :| multiset(t) == multiset(rows) && Sorted(le, t) && o == ApplyQuery(t, query);
    var t' :| multiset(t') == multiset(rows') && Sorted(le, t') && o' == ApplyQuery(t', query);
    SameElements(t, rows);
    DistinctNoTies(reverse, t);
    SortedArrangementUnique(le, t, t');
    ApplyPermutes(t, rows, query);
    if o.Success? {
      ApplySorted(le, t, query);
      SortedArrangementUnique(le, o.value, Sort(le, ApplyQuery(rows, query).value));
    }
  }

  /** The reverse snapshot of tie-free rows is the exact reversal of the forward one. */
  lemma ReverseSnapshot(rows: seq<Row>, query: Option<Query>,
                        forward: Result<seq<Row>, QueryError>, backward: Result<seq<Row>, QueryError>)
    requires DistinctRows(rows)
    requires Loads(false, rows, query, forward) && Loads(true, rows, query, backward)
    ensures backward == if forward.Success? then Success(Reverse(forward.value)) else forward
  {
    DirectionOrder(true);
    var t :| multiset(t) == multiset(rows) && Sorted(Direction(false), t) && forward == ApplyQuery(t, query);
    var b :| multiset(b) == multiset(rows) && Sorted(Direction(true), b) && backward == ApplyQuery(b, query);
    SameElements(b, rows);
    DistinctNoTies(true, b);
    ReverseSorted(Direction(false), Direction(true), t);
    SortedArrangementUnique(Direction(true), b, Reverse(t));
    ApplyReverse(t, query);
  }

  lemma ApplyReverse(rows: seq<Row>, query: Option<Query>)
    ensures ApplyQuery(Reverse(rows), query)
            == var o := ApplyQuery(rows, query); if o.Success? then Success(Reverse(o.value)) else o
  {
    SameElements(rows, Reverse(rows));
    FilterReverse(Keeps(query), rows);
  }
}
