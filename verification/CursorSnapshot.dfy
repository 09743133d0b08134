/** The provider-side cursor object: it sorts and filters rows once and then moves over them. */
module CursorSnapshot {
  import opened Wrappers
  import opened Keys
  import opened Rows
  import opened Cursor
  import Sorting

  datatype CursorDirection = CursorNext | CursorNextUnique | CursorPrev | CursorPrevUnique

  datatype OpenCursorRequest = OpenCursorRequest(index: string, keysOnly: bool, direction: CursorDirection)

  datatype CursorError = NotFound | InvalidArgument

  function ModeOf(req: OpenCursorRequest): Mode {
    Mode(req.index != "",
         req.keysOnly,
         req.direction == CursorPrev || req.direction == CursorPrevUnique,
         req.direction == CursorNextUnique || req.direction == CursorPrevUnique)
  }

  /** Rows sorted in a cursor's direction have their keys in that direction. */
  lemma SortedKeysInOrder(reverse: bool, s: seq<Row>)
    requires Sorting.Sorted(Direction(reverse), s)
    ensures KeysInOrder(reverse, s)
  {
    forall i, j | 0 <= i < j < |s| ensures !Ahead(reverse, s[j].key, s[i].key) {
      assert Direction(reverse)(s[i], s[j]);
      KeyAntisymmetric(s[i].key, s[j].key);
    }
  }

  /** The order rows are returned in, as the request asks for it. */
  lemma RequestOrder(req: OpenCursorRequest, s: seq<Row>, i: nat, j: nat)
    requires Sorting.Sorted(Direction(ModeOf(req).reverse), s) && i < j < |s|
    ensures req.direction in {CursorNext, CursorNextUnique} ==> CompareKeys(s[i].key, s[j].key) <= 0
    ensures req.direction in {CursorPrev, CursorPrevUnique} ==> CompareKeys(s[i].key, s[j].key) >= 0
  {
    SortedKeysInOrder(ModeOf(req).reverse, s);
    assert !Ahead(ModeOf(req).reverse, s[j].key, s[i].key);
    KeyAntisymmetric(s[i].key, s[j].key);
  }

  /** Keys are collapsed exactly for the unique directions over an index; any other cursor returns every row. */
  lemma RequestCollapses(req: OpenCursorRequest, s: seq<Row>, pos: int)
    requires -1 <= pos
    ensures Collapses(ModeOf(req)) <==> req.index != "" && req.direction in {CursorNextUnique, CursorPrevUnique}
    ensures req.index == "" || req.direction in {CursorNext, CursorPrev} ==> NextPos(ModeOf(req), s, pos) == pos + 1
  {
  }

  class CursorSnapshot {
    const mode: Mode
    var entries: array<Row>
    var pos: int

    ghost predicate Valid()
      reads this, entries
    {
      -1 <= pos && KeysInOrder(mode.reverse, entries[..])
    }

    /** The row at the cursor, if it is on one. */
    ghost function Row(): Option<Row>
      reads this, entries
    {
      if 0 <= pos < entries.Length then Some(entries[pos]) else None
    }

    constructor (req: OpenCursorRequest)
      ensures Valid() && mode == ModeOf(req) && entries[..] == [] && pos == -1 && fresh(entries)
    {
      mode := ModeOf(req);
      entries := new Row[0];
      pos := -1;
    }

    /**
     Sorts the caller's rows in place and keeps those the query matches; without
     a query the caller's slice itself becomes the entries. When a row cannot be
     matched the snapshot keeps its entries and its position, though entries that
     are the caller's slice were sorted with it.
     */
    method Load(rows: array<Row>, query: Option<Query>) returns (r: Result<(), QueryError>)
      requires Valid()
      modifies this`entries, this`pos, rows
      ensures Valid()
      ensures multiset(rows[..]) == multiset(old(rows[..])) && Sorting.Sorted(Direction(mode.reverse), rows[..])
      ensures r.Success? ==> pos == -1 && Loads(mode.reverse, old(rows[..]), query, Success(entries[..]))
      ensures r.Success? ==> if query.None? then entries == rows else fresh(entries)
      ensures r.Failure? ==> pos == old(pos) && entries == old(entries)
                             && (entries != rows ==> entries[..] == old(entries[..]))
                             && Loads(mode.reverse, old(rows[..]), query, Failure(r.error))
    {
      SortInPlace(mode.reverse, rows);
      SortedKeysInOrder(mode.reverse, rows[..]);
      ghost var sorted := rows[..];
      var filtered := ApplyIndexedDBQuery(rows[..], query);
      match filtered
      case Failure(e) =>
        r := Failure(e);
      case Success(kept) =>
        ApplySorted(Direction(mode.reverse), sorted, query);
        SortedKeysInOrder(mode.reverse, kept);
        if query.None? {
          entries := rows;
        } else {
          entries := new Row[|kept|](i requires 0 <= i < |kept| => kept[i]);
        }
        assert entries[..] == kept;
        pos := -1;
        r := Success(());
    }

    method Current() returns (r: Result<Row, CursorError>)
      requires Valid()
      ensures r == if Row().Some? then Success(Row().value) else Failure(NotFound)
    {
      if pos < 0 || pos >= entries.Length {
        return Failure(NotFound);
      }
      return Success(entries[pos]);
    }

    method Next() returns (r: Result<Option<Row>, CursorError>)
      requires Valid()
      modifies this`pos
      ensures Valid() && pos == NextPos(mode, entries[..], old(pos)) && r == Success(Row())
    {
      if mode.unique && mode.indexCursor && pos >= 0 && pos < entries.Length {
        var prev := entries[pos].key;
        pos := pos + 1;
        while pos < entries.Length
          invariant 0 <= pos <= entries.Length
          invariant SkipRun(entries[..], pos, prev) == NextPos(mode, entries[..], old(pos))
        {
          if CompareKeys(entries[pos].key, prev) != 0 {
            return Success(Some(entries[pos]));
          }
          pos := pos + 1;
        }
        return Success(None);
      }
      pos := pos + 1;
      if pos >= entries.Length {
        return Success(None);
      }
      return Success(Some(entries[pos]));
    }

    method ContinueToKey(target: Key) returns (r: Result<Option<Row>, CursorError>)
      requires Valid()
      modifies this`pos
      ensures Valid() && pos == ContinuePos(mode, entries[..], old(pos), target) && r == Success(Row())
    {
      var prev: Option<Key> := None;
      if mode.unique && mode.indexCursor && pos >= 0 && pos < entries.Length {
        prev := Some(entries[pos].key);
      }
      pos := pos + 1;
      r := ScanFrom(prev, target);
    }

    /** The loop of `ContinueToKey`. */
    method ScanFrom(prev: Option<Key>, target: Key) returns (r: Result<Option<Row>, CursorError>)
      requires Valid() && 0 <= pos && (prev.Some? ==> Collapses(mode))
      modifies this`pos
      ensures Valid() && pos == Scan(mode.reverse, entries[..], old(pos), prev, target) && r == Success(Row())
    {
      ghost var s := entries[..];
      ghost var goal := Scan(mode.reverse, s, pos, prev, target);
      while pos < entries.Length
        invariant 0 <= pos
        invariant Scan(mode.reverse, s, pos, prev, target) == goal
      {
        var passed := PassesOver(mode, entries[pos].key, prev, target);
        assert entries[pos] == s[pos];
        if !passed {
          return Success(Some(entries[pos]));
        }
        pos := pos + 1;
      }
      return Success(None);
    }

    method Advance(count: int) returns (r: Result<Option<Row>, CursorError>)
      requires Valid()
      modifies this`pos
      ensures Valid() && pos == Move(mode, entries[..], old(pos), Command.Advance(count))
      ensures r == if count <= 0 then Failure(InvalidArgument) else Success(Row())
    {
      if count <= 0 {
        return Failure(InvalidArgument);
      }
      r := Success(None);
      for i := 0 to count
        invariant Valid()
        invariant i > 0 ==> pos < entries.Length && r == Success(Row())
        invariant AdvancePos(mode, entries[..], pos, count - i) == AdvancePos(mode, entries[..], old(pos), count)
        invariant i == 0 ==> pos == old(pos)
      {
        r := Next();
        if r.Success? && r.value.None? {
          return;
        }
      }
    }
  }

  /** Whether `ContinueToKey` moves on from a key: it is the one it started from, or the target is still ahead. */
  method PassesOver(m: Mode, cur: Key, prev: Option<Key>, target: Key) returns (passed: bool)
    requires prev.Some? ==> Collapses(m)
    ensures passed <==> Passes(m.reverse, cur, prev, target)
  {
    if prev.Some? && m.unique && m.indexCursor && CompareKeys(cur, prev.value) == 0 {
      return true;
    }
    var cmp := CompareKeys(cur, target);
    if m.reverse {
      return cmp > 0;
    }
    return cmp < 0;
  }

  /** `sort.Slice` with the cursor's row order. */
  method SortInPlace(reverse: bool, rows: array<Row>)
    modifies rows
    ensures multiset(rows[..]) == multiset(old(rows[..])) && Sorting.Sorted(Direction(reverse), rows[..])
  {
    DirectionOrder(reverse);
    var sorted := Sorting.Sort(Direction(reverse), rows[..]);
    Sorting.SameElements(sorted, rows[..]);
    forall i | 0 <= i < rows.Length {
      rows[i] := sorted[i];
    }
    assert rows[..] == sorted;
  }
}
