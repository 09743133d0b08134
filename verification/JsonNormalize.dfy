/** `normalizeJSONValue`: the walk that keeps the addresses it is inside of in a shared map. */
module JsonNormalize {
  import opened Wrappers
  import opened JsonValues
  import opened JsonPaths
  import opened JsonUnfold
  import JsonTrees

  /** The `seen` map, from each address being visited to the path at which it was entered. */
  class Seen {
    var paths: map<nat, Path>

    constructor ()
      ensures paths == map[]
    {
      paths := map[];
    }
  }

  ghost predicate Above(paths: map<nat, Path>, path: Path) {
    forall a :: a in paths ==> paths[a] <= path
  }

  /** What an error promises: it lies at or below `path`, and a cycle names the place the address was entered. */
  ghost predicate ErrorBelow(e: NormalizeError, path: Path) {
    path <= e.path && (e.kind.Cycle? ==> e.kind.prior <= e.path)
  }

  /** The outcome for one value agrees with its unfolding; a cycle reported is one, any other error means no tree. */
  ghost predicate Agrees(h: Heap, v: Value, active: set<nat>, path: Path, r: Result<Json, NormalizeError>) {
    match r
    case Success(j) => Unfold(h, v, active) == Some(j)
    case Failure(e) =>
      && Unfold(h, v, active).None? && ErrorBelow(e, path)
      && if e.kind.Cycle? then !Acyclic(h, v, active) else NoTree(h, v)
  }

  ghost predicate AgreesAll(h: Heap, vs: seq<Value>, active: set<nat>, path: Path,
                            r: Result<seq<Json>, NormalizeError>)
  {
    match r
    case Success(js) => UnfoldAll(h, vs, active) == Some(js)
    case Failure(e) =>
      && UnfoldAll(h, vs, active).None? && ErrorBelow(e, path)
      && exists i :: 0 <= i < |vs| && if e.kind.Cycle? then !Acyclic(h, vs[i], active) else NoTree(h, vs[i])
  }

  /** What a call promises about its outcome. */
  ghost predicate Settles(h: Heap, root: Value, v: Value, active: set<nat>, path: Path,
                          r: Result<Json, NormalizeError>)
  {
    Agrees(h, v, active, path, r) && (r.Failure? ==> Blames(h, root, r.error))
  }

  // ---- Glue ----

  lemma AgreesFromKids(h: Heap, v: Value, active: set<nat>, path: Path, r: Result<seq<Json>, NormalizeError>)
    requires !Rejected(h, v) && (Enters(v).Some? ==> Enters(v).value.address !in active)
    requires AgreesAll(h, Kids(h, v), Inner(v, active), path, r)
    ensures r.Success? ==> |r.value| == |Kids(h, v)| && Agrees(h, v, active, path, Success(Build(h, v, r.value)))
    ensures r.Failure? ==> Agrees(h, v, active, path, Failure(r.error))
  {
    if r.Failure? {
      var kids, cycle := Kids(h, v), r.error.kind.Cycle?;
      var i :| 0 <= i < |kids| && if cycle then !Acyclic(h, kids[i], Inner(v, active)) else NoTree(h, kids[i]);
      if !cycle {
        NoTreeAbove(h, v, i);
      } else if Acyclic(h, v, active) {
        AcyclicBelow(h, v, active, i);
      }
    }
  }

  /** Entering an address that is already active is a cycle. */
  lemma CycleHere(h: Heap, v: Value, active: set<nat>)
    requires Enters(v).Some? && Enters(v).value.address in active
    ensures Unfold(h, v, active).None? && !Acyclic(h, v, active)
  {
    if Acyclic(h, v, active) { TrailHere(h, v, active); }
  }

  /** Pointers and interfaces are transparent. */
  lemma DereferenceAgrees(h: Heap, v: Value, kid: Value, active: set<nat>, path: Path, r: Result<Json, NormalizeError>)
    requires v.Interface? || v.Pointer?
    requires !Rejected(h, v) && Kids(h, v) == [kid] && (Enters(v).Some? ==> Enters(v).value.address !in active)
    requires Agrees(h, kid, Inner(v, active), path, r)
    ensures Agrees(h, v, active, path, r)
  {
    UnfoldAllEach(h, [kid], Inner(v, active));
    assert [kid][0] == kid;
    if r.Failure? && r.error.kind.Cycle? && Acyclic(h, v, active) { AcyclicBelow(h, v, active, 0); }
    if r.Failure? && !r.error.kind.Cycle? { NoTreeAbove(h, v, 0); }
    if r.Success? { assert UnfoldAll(h, [kid], Inner(v, active)).value[0] == r.value; }
  }

  lemma BlamesHere(h: Heap, root: Value, path: Path, v: Value, kind: ErrorKind)
    requires Reaches(h, root, path, v) && Fits(h, root, path, v, kind)
    ensures Blames(h, root, NormalizeError(path, kind))
  {
  }

  /** A value rejected for what it is. */
  lemma RejectedSettles(h: Heap, root: Value, v: Value, active: set<nat>, path: Path, kind: ErrorKind)
    requires Rejected(h, v) && Reaches(h, root, path, v) && Fits(h, root, path, v, kind) && !kind.Cycle?
    ensures Settles(h, root, v, active, path, Failure(NormalizeError(path, kind)))
  {
    RejectedHasNoTree(h, v);
    BlamesHere(h, root, path, v, kind);
  }

  lemma BlamesCycle(h: Heap, root: Value, paths: map<nat, Path>, path: Path, v: Value, ref: Ref)
    requires Tracks(h, root, paths, path, v) && Enters(v) == Some(ref) && ref.address in paths
    ensures Blames(h, root, NormalizeError(path, Cycle(paths[ref.address])))
  {
    BlamesHere(h, root, path, v, Cycle(paths[ref.address]));
  }

  lemma BlamesEmbedded(h: Heap, root: Value, path: Path, v: Value, i: nat)
    requires Reaches(h, root, path, v) && v.Concrete? && v.body.Struct? && i < |v.body.fields|
    requires Embedded(v.body.fields[i])
    ensures Blames(h, root, NormalizeError(path + [Member(v.body.fields[i].name)], EmbeddedField))
  {
    assert EmbedsField(v, v.body.fields[i].name);
    assert BlamesField(h, root, path, v.body.fields[i].name);
  }

  // ---- Entering and leaving addresses ----

  /** The `seen` map after entering `added`, in order, at `path`. */
  ghost function Entered(base: map<nat, Path>, added: seq<nat>, path: Path): map<nat, Path> {
    if added == [] then base else Entered(base, added[..|added| - 1], path)[added[|added| - 1] := path]
  }

  /** Each entered address is new. */
  ghost predicate AllNew(base: map<nat, Path>, added: seq<nat>, path: Path) {
    added == [] || (added[|added| - 1] !in Entered(base, added[..|added| - 1], path)
                    && AllNew(base, added[..|added| - 1], path))
  }

  /** The deferred deletes of a call, last entered first. */
  method Leave(seen: Seen, added: seq<nat>, path: Path, ghost base: map<nat, Path>)
    requires seen.paths == Entered(base, added, path) && AllNew(base, added, path)
    modifies seen
    ensures seen.paths == base
  {
    var left := added;
    while left != []
      invariant seen.paths == Entered(base, left, path) && AllNew(base, left, path)
      decreases |left|
    {
      var n := |left| - 1;
      seen.paths := seen.paths - {left[n]};
      left := left[..n];
    }
  }

  /** Leaving the entered addresses leads back to the addresses entered before. */
  ghost predicate Unwinds(base: map<nat, Path>, added: seq<nat>, paths: map<nat, Path>, path: Path) {
    paths == Entered(base, added, path) && AllNew(base, added, path) && Above(paths, path)
  }

  lemma EnteredUnwinds(base: map<nat, Path>, added: seq<nat>, paths: map<nat, Path>, path: Path, a: nat)
    requires Unwinds(base, added, paths, path) && a !in paths
    ensures Unwinds(base, added + [a], paths[a := path], path)
  {
    assert (added + [a])[..|added|] == added;
  }

  // ---- Following pointers and interfaces ----

  /** `cur` is what is left of `value` to look at: its outcome is the outcome of `value`. */
  ghost predicate Follows(h: Heap, root: Value, value: Value, active: set<nat>, paths: map<nat, Path>, path: Path,
                          cur: Value)
  {
    && Tracks(h, root, paths, path, cur)
    && forall q :: Agrees(h, cur, paths.Keys, path, q) ==> Agrees(h, value, active, path, q)
  }

  lemma SettlesAbove(h: Heap, root: Value, value: Value, active: set<nat>, paths: map<nat, Path>, path: Path,
                     cur: Value, r: Result<Json, NormalizeError>)
    requires Follows(h, root, value, active, paths, path, cur) && Settles(h, root, cur, paths.Keys, path, r)
    ensures Settles(h, root, value, active, path, r)
  {
  }

  lemma NilSettles(h: Heap, root: Value, value: Value, active: set<nat>, paths: map<nat, Path>, path: Path, cur: Value)
    requires Follows(h, root, value, active, paths, path, cur) && (cur == Interface(None) || cur == Pointer(None))
    ensures Settles(h, root, value, active, path, Success(JNull))
  {
    assert Agrees(h, cur, paths.Keys, path, Success(JNull));
  }

  lemma CycleSettles(h: Heap, root: Value, value: Value, active: set<nat>, paths: map<nat, Path>, path: Path,
                     cur: Value, ref: Ref)
    requires Follows(h, root, value, active, paths, path, cur) && Enters(cur) == Some(ref) && ref.address in paths
    requires Above(paths, path)
    ensures Settles(h, root, value, active, path, Failure(NormalizeError(path, Cycle(paths[ref.address]))))
  {
    CycleHere(h, cur, paths.Keys);
    BlamesCycle(h, root, paths, path, cur, ref);
    assert Agrees(h, cur, paths.Keys, path, Failure(NormalizeError(path, Cycle(paths[ref.address]))));
  }

  lemma DanglingSettles(h: Heap, root: Value, value: Value, active: set<nat>, paths: map<nat, Path>, path: Path,
                        cur: Value)
    requires Follows(h, root, value, active, paths, path, cur) && cur.Pointer? && Rejected(h, cur)
    ensures Settles(h, root, value, active, path, Failure(NormalizeError(path, UnsupportedValue)))
  {
    RejectedSettles(h, root, cur, paths.Keys, path, UnsupportedValue);
  }

  lemma FollowsInterface(h: Heap, root: Value, value: Value, active: set<nat>, paths: map<nat, Path>, path: Path,
                         cur: Value)
    requires Follows(h, root, value, active, paths, path, cur) && cur.Interface? && cur.elem.Some?
    ensures Follows(h, root, value, active, paths, path, cur.elem.value)
  {
    TracksDereferenced(h, root, paths, path, cur, cur.elem.value);
    forall q | Agrees(h, cur.elem.value, paths.Keys, path, q) ensures Agrees(h, value, active, path, q) {
      DereferenceAgrees(h, cur, cur.elem.value, paths.Keys, path, q);
    }
  }

  lemma FollowsPointer(h: Heap, root: Value, value: Value, active: set<nat>, paths: map<nat, Path>, path: Path,
                       cur: Value, ref: Ref)
    requires Follows(h, root, value, active, paths, path, cur) && cur == Pointer(Some(ref))
    requires ref.address !in paths && ref in h && h[ref].Target?
    ensures Follows(h, root, value, active, paths[ref.address := path], path, h[ref].v)
    ensures Addresses(h) - paths[ref.address := path].Keys < Addresses(h) - paths.Keys
  {
    assert ref.address in Addresses(h) - paths.Keys;
    TracksDereferenced(h, root, paths, path, cur, h[ref].v);
    assert paths[ref.address := path].Keys == Inner(cur, paths.Keys);
    forall q | Agrees(h, h[ref].v, Inner(cur, paths.Keys), path, q) ensures Agrees(h, value, active, path, q) {
      DereferenceAgrees(h, cur, h[ref].v, paths.Keys, path, q);
    }
  }

  // ---- The walk ----

  /** A value: pointers and interfaces are followed, entering each pointer's address, before it is looked at. */
  method NormalizeValue(h: Heap, value: Value, path: Path, seen: Seen, ghost root: Value)
    returns (r: Result<Json, NormalizeError>)
    requires Above(seen.paths, path) && Tracks(h, root, seen.paths, path, value)
    modifies seen
    ensures seen.paths == old(seen.paths)
    ensures Settles(h, root, value, old(seen.paths).Keys, path, r)
    decreases Addresses(h) - seen.paths.Keys, Size(value), 3
  {
    ghost var base := seen.paths;
    var cur := value;
    var added: seq<nat> := [];
    var done := false;
    r := Success(JNull);
    while !done && (cur.Interface? || cur.Pointer?)
      invariant Unwinds(base, added, seen.paths, path)
      invariant if done then Settles(h, root, value, base.Keys, path, r)
                else Follows(h, root, value, base.Keys, seen.paths, path, cur)
      invariant Addresses(h) - seen.paths.Keys <= Addresses(h) - base.Keys
      invariant Addresses(h) - seen.paths.Keys == Addresses(h) - base.Keys ==> Size(cur) <= Size(value)
      decreases !done, Addresses(h) - seen.paths.Keys, Size(cur)
    {
      if cur.Interface? {
        if cur.elem.None? {
          NilSettles(h, root, value, base.Keys, seen.paths, path, cur);
          r, done := Success(JNull), true;
        } else {
          FollowsInterface(h, root, value, base.Keys, seen.paths, path, cur);
          cur := cur.elem.value;
        }
      } else if cur.target.None? {
        NilSettles(h, root, value, base.Keys, seen.paths, path, cur);
        r, done := Success(JNull), true;
      } else {
        var ref := cur.target.value;
        if ref.address in seen.paths {
          CycleSettles(h, root, value, base.Keys, seen.paths, path, cur, ref);
          r, done := Failure(NormalizeError(path, Cycle(seen.paths[ref.address]))), true;
        } else if !(ref in h && h[ref].Target?) {
          DanglingSettles(h, root, value, base.Keys, seen.paths, path, cur);
          r, done := Failure(NormalizeError(path, UnsupportedValue)), true;
        } else {
          FollowsPointer(h, root, value, base.Keys, seen.paths, path, cur, ref);
          EnteredUnwinds(base, added, seen.paths, path, ref.address);
          seen.paths := seen.paths[ref.address := path];
          added := added + [ref.address];
          cur := h[ref].v;
        }
      }
    }
    if !done {
      r := NormalizeConcrete(h, cur, path, seen, root);
      SettlesAbove(h, root, value, base.Keys, seen.paths, path, cur, r);
    }
    Leave(seen, added, path, base);
  }

  /** A value that is neither a pointer nor an interface: type checks, and entering a map's or slice's address. */
  method NormalizeConcrete(h: Heap, v: Value, path: Path, seen: Seen, ghost root: Value)
    returns (r: Result<Json, NormalizeError>)
    requires !v.Interface? && !v.Pointer? && Above(seen.paths, path) && Tracks(h, root, seen.paths, path, v)
    modifies seen
    ensures seen.paths == old(seen.paths)
    ensures Settles(h, root, v, old(seen.paths).Keys, path, r)
    decreases Addresses(h) - seen.paths.Keys, Size(v), 2
  {
    if v.Invalid? {
      return Success(JNull);
    }
    if v.ty.isTime {
      RejectedSettles(h, root, v, seen.paths.Keys, path, TimeValue);
      return Failure(NormalizeError(path, TimeValue));
    }
    if v.ty.isMarshaler {
      RejectedSettles(h, root, v, seen.paths.Keys, path, MarshalerValue);
      return Failure(NormalizeError(path, MarshalerValue));
    }
    var ref := Enters(v);
    TracksInto(h, root, seen.paths, path, v);
    if ref.None? {
      r := NormalizeBody(h, v, path, seen, seen.paths.Keys, root);
    } else if ref.value.address in seen.paths {
      CycleHere(h, v, seen.paths.Keys);
      BlamesCycle(h, root, seen.paths, path, v, ref.value);
      r := Failure(NormalizeError(path, Cycle(seen.paths[ref.value.address])));
    } else {
      ghost var base := seen.paths;
      seen.paths := seen.paths[ref.value.address := path];
      assert seen.paths.Keys == Inner(v, base.Keys);
      r := NormalizeBody(h, v, path, seen, base.Keys, root);
      seen.paths := seen.paths - {ref.value.address};
    }
  }

  /** What is inside a value whose own address, if it has one, has been entered. */
  method NormalizeBody(h: Heap, v: Value, path: Path, seen: Seen, ghost active: set<nat>, ghost root: Value)
    returns (r: Result<Json, NormalizeError>)
    requires v.Concrete? && !v.ty.isTime && !v.ty.isMarshaler && Above(seen.paths, path)
    requires TracksParts(h, root, seen.paths, path, v)
    requires seen.paths.Keys == Inner(v, active) && (Enters(v).Some? ==> Enters(v).value.address !in active)
    modifies seen
    ensures seen.paths == old(seen.paths)
    ensures Settles(h, root, v, active, path, r)
    decreases Addresses(h) - active, Size(v), 1
  {
    match v.body
    case Map(ref, stringKeys) =>
      if ref.None? {
        return Success(JNull);
      }
      if !stringKeys {
        RejectedSettles(h, root, v, active, path, MapKeysNotStrings);
        return Failure(NormalizeError(path, MapKeysNotStrings));
      }
      if !(ref.value in h && h[ref.value].Entries?) {
        RejectedSettles(h, root, v, active, path, UnsupportedValue);
        return Failure(NormalizeError(path, UnsupportedValue));
      }
      r := NormalizeMap(h, v, h[ref.value].m, path, seen, active, root);
    case Slice(ref, ofBytes) =>
      if ref.None? {
        return Success(JNull);
      }
      if ofBytes {
        RejectedSettles(h, root, v, active, path, ByteSequence);
        return Failure(NormalizeError(path, ByteSequence));
      }
      if !(ref.value in h && h[ref.value].Items?) {
        RejectedSettles(h, root, v, active, path, UnsupportedValue);
        return Failure(NormalizeError(path, UnsupportedValue));
      }
      PartsAreItems(h, root, seen.paths, path, v);
      var items := NormalizeItems(h, h[ref.value].vs, path, seen, root);
      AgreesFromKids(h, v, active, path, items);
      r := if items.Success? then Success(JArray(items.value)) else Failure(items.error);
    case Array(elems, ofBytes) =>
      if ofBytes {
        RejectedSettles(h, root, v, active, path, ByteSequence);
        return Failure(NormalizeError(path, ByteSequence));
      }
      PartsAreItems(h, root, seen.paths, path, v);
      var items := NormalizeItems(h, elems, path, seen, root);
      AgreesFromKids(h, v, active, path, items);
      r := if items.Success? then Success(JArray(items.value)) else Failure(items.error);
    case Struct(fields) => r := NormalizeStruct(h, v, fields, path, seen, active, root);
    case _ => r := NormalizeScalar(h, v, path, active, root);
  }

  /** The parts of a slice or array are its items. */
  lemma PartsAreItems(h: Heap, root: Value, paths: map<nat, Path>, path: Path, v: Value)
    requires v.Concrete? && (v.body.Slice? || v.body.Array?) && !Rejected(h, v)
    requires TracksParts(h, root, paths, path, v)
    ensures TracksItems(h, root, paths, path, Kids(h, v))
  {
    var items := Kids(h, v);
    forall i | 0 <= i < |items| ensures Tracks(h, root, paths, path + [Index(i)], items[i]) {
      assert Selects(h, v, Index(i), items[i]);
    }
  }

  method NormalizeScalar(h: Heap, v: Value, path: Path, ghost active: set<nat>, ghost root: Value)
    returns (r: Result<Json, NormalizeError>)
    requires v.Concrete? && !v.ty.isTime && !v.ty.isMarshaler
    requires !v.body.Map? && !v.body.Slice? && !v.body.Array? && !v.body.Struct? && Reaches(h, root, path, v)
    ensures Settles(h, root, v, active, path, r)
  {
    if v.body.Unsupported? || v.body == Float(None) {
      RejectedSettles(h, root, v, active, path, if v.body.Unsupported? then UnsupportedValue else NotFiniteNumber);
    }
    match v.body
    case Bool(b) => r := Success(JBool(b));
    case String(s) => r := Success(JString(s));
    case Int(i) => r := Success(JInt(i));
    case Uint(n) => r := Success(JUint(n));
    case Float(f) => r := if f.None? then Failure(NormalizeError(path, NotFiniteNumber)) else Success(JFloat(f.value));
    case Unsupported => r := Failure(NormalizeError(path, UnsupportedValue));
  }

  lemma {:induction false} PartIsSmaller(vs: seq<Value>, i: nat)
    requires i < |vs|
    ensures Size(vs[i]) < SizeAll(vs)
    decreases |vs|
  {
    if i < |vs| - 1 { PartIsSmaller(vs[..|vs| - 1], i); }
  }

  lemma ItemFails(h: Heap, items: seq<Value>, i: nat, active: set<nat>, path: Path, below: Path, e: NormalizeError)
    requires i < |items| && Agrees(h, items[i], active, below, Failure(e)) && path <= below
    ensures AgreesAll(h, items, active, path, Failure(e))
  {
    UnfoldAllEach(h, items, active);
  }

  lemma ItemDone(h: Heap, items: seq<Value>, i: nat, active: set<nat>, out: seq<Json>, j: Json)
    requires i < |items| && UnfoldAll(h, items[..i], active) == Some(out) && Unfold(h, items[i], active) == Some(j)
    ensures UnfoldAll(h, items[..i + 1], active) == Some(out + [j])
  {
    assert items[..i + 1] == items[..i] + [items[i]];
    UnfoldOneMore(h, items[..i], items[i], active);
  }

  /** Each item lies at its index. */
  ghost predicate TracksItems(h: Heap, root: Value, paths: map<nat, Path>, path: Path, items: seq<Value>) {
    forall i :: 0 <= i < |items| ==> Tracks(h, root, paths, path + [Index(i)], items[i])
  }

  lemma ItemTracked(h: Heap, root: Value, paths: map<nat, Path>, path: Path, items: seq<Value>, i: nat)
    requires TracksItems(h, root, paths, path, items) && i < |items|
    ensures Tracks(h, root, paths, path + [Index(i)], items[i])
  {
  }

  method NormalizeItems(h: Heap, items: seq<Value>, path: Path, seen: Seen, ghost root: Value)
    returns (r: Result<seq<Json>, NormalizeError>)
    requires Above(seen.paths, path)
    requires TracksItems(h, root, seen.paths, path, items)
    modifies seen
    ensures seen.paths == old(seen.paths)
    ensures r.Failure? ==> Blames(h, root, r.error)
    ensures AgreesAll(h, items, old(seen.paths).Keys, path, r)
    decreases Addresses(h) - seen.paths.Keys, SizeAll(items), 0
  {
    ghost var active := seen.paths.Keys;
    var out: seq<Json> := [];
    for i := 0 to |items|
      invariant seen.paths == old(seen.paths)
      invariant UnfoldAll(h, items[..i], active) == Some(out)
    {
      PartIsSmaller(items, i);
      ItemTracked(h, root, seen.paths, path, items, i);
      var item := NormalizeValue(h, items[i], path + [Index(i)], seen, root);
      if item.Failure? {
        ItemFails(h, items, i, active, path, path + [Index(i)], item.error);
        return Failure(item.error);
      }
      ItemDone(h, items, i, active, out, item.value);
      out := out + [item.value];
    }
    assert items[..|items|] == items;
    return Success(out);
  }

  /** A failing part fails the whole. */
  lemma KidFails(h: Heap, v: Value, active: set<nat>, i: nat, path: Path, below: Path, e: NormalizeError)
    requires !Rejected(h, v) && (Enters(v).Some? ==> Enters(v).value.address !in active) && i < |Kids(h, v)|
    requires Agrees(h, Kids(h, v)[i], Inner(v, active), below, Failure(e)) && path <= below
    ensures Agrees(h, v, active, path, Failure(e))
  {
    UnfoldAllEach(h, Kids(h, v), Inner(v, active));
    AgreesFromKids(h, v, active, path, Failure(e));
  }

  lemma {:induction false} ZipPicks(ks: seq<string>, out: map<string, Json>, js: seq<Json>)
    requires |js| == |ks| && forall i :: 0 <= i < |ks| ==> ks[i] in out && js[i] == out[ks[i]]
    ensures forall k :: k in ks ==> Zip(ks, js)[k] == out[k]
  {
    if ks != [] {
      var n := |ks| - 1;
      ZipPicks(ks[..n], out, js[..n]);
      assert ks == ks[..n] + [ks[n]];
    }
  }

  method NormalizeMap(h: Heap, v: Value, m: map<string, Value>, path: Path, seen: Seen, ghost active: set<nat>,
                      ghost root: Value)
    returns (r: Result<Json, NormalizeError>)
    requires !Rejected(h, v) && v.Concrete? && v.body.Map? && v.body.entries.Some? && m == h[v.body.entries.value].m
    requires Enters(v).Some? && Enters(v).value.address !in active
    requires seen.paths.Keys == Inner(v, active) && Above(seen.paths, path)
    requires TracksParts(h, root, seen.paths, path, v)
    modifies seen
    ensures seen.paths == old(seen.paths)
    ensures Settles(h, root, v, active, path, r)
    decreases Addresses(h) - active, Size(v), 0
  {
    ghost var inner := Inner(v, active);
    ghost var ks := KeySeq(m.Keys);
    var out: map<string, Json> := map[];
    var rest := m.Keys;
    assert Enters(v).value in h && Enters(v).value.address in Addresses(h);
    while rest != {}
      invariant seen.paths == old(seen.paths) && rest <= m.Keys
      invariant out.Keys == m.Keys - rest
      invariant forall k :: k in out ==> Unfold(h, m[k], inner) == Some(out[k])
    {
      var k :| k in rest;
      assert Selects(h, v, Member(k), m[k]);
      var item := NormalizeValue(h, m[k], path + [Member(k)], seen, root);
      if item.Failure? {
        assert k in ks;
        ghost var i :| 0 <= i < |ks| && ks[i] == k;
        KidFails(h, v, active, i, path, path + [Member(k)], item.error);
        return Failure(item.error);
      }
      out := out[k := item.value];
      rest := rest - {k};
    }
    r := Success(JObject(out));
    MapAgrees(h, v, m, out, active, path);
  }

  lemma MapAgrees(h: Heap, v: Value, m: map<string, Value>, out: map<string, Json>, active: set<nat>, path: Path)
    requires !Rejected(h, v) && v.Concrete? && v.body.Map? && v.body.entries.Some? && m == h[v.body.entries.value].m
    requires Enters(v).Some? && Enters(v).value.address !in active
    requires out.Keys == m.Keys && forall k :: k in out ==> Unfold(h, m[k], Inner(v, active)) == Some(out[k])
    ensures Agrees(h, v, active, path, Success(JObject(out)))
  {
    var js := Picked(KeySeq(m.Keys), out);
    MapUnfolds(h, v, m, out, Inner(v, active));
    ZipPicked(KeySeq(m.Keys), out);
    AgreesFromKids(h, v, active, path, Success(js));
  }

  lemma MapUnfolds(h: Heap, v: Value, m: map<string, Value>, out: map<string, Json>, active: set<nat>)
    requires !Rejected(h, v) && v.Concrete? && v.body.Map? && v.body.entries.Some? && m == h[v.body.entries.value].m
    requires out.Keys == m.Keys && forall k :: k in out ==> Unfold(h, m[k], active) == Some(out[k])
    ensures UnfoldAll(h, Kids(h, v), active) == Some(Picked(KeySeq(m.Keys), out))
  {
    MapKids(h, v, m);
    UnfoldAllIs(h, Kids(h, v), active, Picked(KeySeq(m.Keys), out));
  }

  lemma ZipPicked(ks: seq<string>, out: map<string, Json>)
    requires forall k :: k in ks <==> k in out
    ensures Zip(ks, Picked(ks, out)) == out
  {
    ZipIs(ks, out, Picked(ks, out));
  }

  lemma ZipIs(ks: seq<string>, out: map<string, Json>, js: seq<Json>)
    requires |js| == |ks| && forall i :: 0 <= i < |ks| ==> ks[i] in out && js[i] == out[ks[i]]
    requires forall k :: k in ks <==> k in out
    ensures Zip(ks, js) == out
  {
    ZipPicks(ks, out, js);
    assert Zip(ks, js).Keys == out.Keys;
  }

  ghost function Picked(ks: seq<string>, out: map<string, Json>): (js: seq<Json>)
    requires forall k :: k in ks ==> k in out
    ensures |js| == |ks| && forall i :: 0 <= i < |ks| ==> ks[i] in out && js[i] == out[ks[i]]
  {
    if ks == [] then [] else assert ks[0] in ks; [out[ks[0]]] + Picked(ks[1..], out)
  }

  lemma MapKids(h: Heap, v: Value, m: map<string, Value>)
    requires !Rejected(h, v) && v.Concrete? && v.body.Map? && v.body.entries.Some? && m == h[v.body.entries.value].m
    ensures |Kids(h, v)| == |KeySeq(m.Keys)|
    ensures forall i :: 0 <= i < |Kids(h, v)| ==> KeySeq(m.Keys)[i] in m && Kids(h, v)[i] == m[KeySeq(m.Keys)[i]]
  {
    var ks := KeySeq(m.Keys);
    assert forall i :: 0 <= i < |ks| ==> ks[i] in ks;
  }

  lemma UnfoldAllIs(h: Heap, vs: seq<Value>, active: set<nat>, js: seq<Json>)
    requires |js| == |vs| && forall i :: 0 <= i < |vs| ==> Unfold(h, vs[i], active) == Some(js[i])
    ensures UnfoldAll(h, vs, active) == Some(js)
  {
    UnfoldAllEach(h, vs, active);
    assert UnfoldAll(h, vs, active).value == js;
  }

  // ---- Structs ----

  lemma {:induction false} FieldIsSmaller(fs: seq<Field>, i: nat)
    requires i < |fs|
    ensures Size(fs[i].value) < SizeFields(fs)
  {
    if i < |fs| - 1 { FieldIsSmaller(fs[..|fs| - 1], i); }
  }

  lemma {:induction false} VisitedPrefix(h: Heap, fs: seq<Field>, i: nat)
    requires i <= |fs|
    ensures VisitedFields(h, fs[..i]) <= VisitedFields(h, fs)
  {
    if i == |fs| {
      assert fs[..i] == fs;
    } else {
      VisitedPrefix(h, fs[..|fs| - 1], i);
      assert fs[..|fs| - 1][..i] == fs[..i];
    }
  }

  /** Where a visited field stands among the parts of its struct. */
  lemma FieldIsKid(h: Heap, v: Value, fs: seq<Field>, i: nat)
    requires v.Concrete? && v.body == Struct(fs) && !Rejected(h, v) && i < |fs| && Visited(h, fs[i])
    ensures |VisitedFields(h, fs[..i])| < |Kids(h, v)|
    ensures Kids(h, v)[|VisitedFields(h, fs[..i])|] == FieldValue(fs[i])
  {
    assert fs[..i + 1][..i] == fs[..i];
    VisitedPrefix(h, fs, i + 1);
  }

  /** The fields handled so far: the unfoldings of the visited ones, paired with their names. */
  ghost predicate FieldsDone(h: Heap, fs: seq<Field>, active: set<nat>, js: seq<Json>, out: map<string, Json>) {
    var visited := VisitedFields(h, fs);
    UnfoldAll(h, FieldValues(visited), active) == Some(js) && out == Zip(FieldNames(visited), js)
  }

  lemma AppendDone(h: Heap, before: seq<Field>, f: Field, active: set<nat>, js: seq<Json>, j: Json)
    requires UnfoldAll(h, FieldValues(before), active) == Some(js) && Unfold(h, FieldValue(f), active) == Some(j)
    ensures UnfoldAll(h, FieldValues(before + [f]), active) == Some(js + [j])
    ensures Zip(FieldNames(before + [f]), js + [j]) == Zip(FieldNames(before), js)[FieldName(f) := j]
  {
    assert FieldValues(before + [f]) == FieldValues(before) + [FieldValue(f)];
    assert FieldNames(before + [f]) == FieldNames(before) + [FieldName(f)];
    UnfoldOneMore(h, FieldValues(before), FieldValue(f), active);
    JsonTrees.ZipOneMore(FieldNames(before), js, FieldName(f), j);
  }

  lemma FieldDone(h: Heap, fs: seq<Field>, i: nat, active: set<nat>, js: seq<Json>, out: map<string, Json>, j: Json)
    requires i < |fs| && FieldsDone(h, fs[..i], active, js, out)
    ensures !Visited(h, fs[i]) ==> FieldsDone(h, fs[..i + 1], active, js, out)
    ensures Visited(h, fs[i]) && Unfold(h, FieldValue(fs[i]), active) == Some(j) ==>
              FieldsDone(h, fs[..i + 1], active, js + [j], out[FieldName(fs[i]) := j])
  {
    JsonTrees.VisitedNext(h, fs, i);
    var before := VisitedFields(h, fs[..i]);
    if !Visited(h, fs[i]) {
      assert before + [] == before;
    } else if Unfold(h, FieldValue(fs[i]), active) == Some(j) {
      AppendDone(h, before, fs[i], active, js, j);
    }
  }

  /** A visited field that fails makes its struct fail. */
  lemma FieldFails(h: Heap, v: Value, fs: seq<Field>, i: nat, active: set<nat>, path: Path, below: Path,
                   e: NormalizeError)
    requires v.Concrete? && v.body == Struct(fs) && !Rejected(h, v) && i < |fs| && Visited(h, fs[i])
    requires Agrees(h, FieldValue(fs[i]), active, below, Failure(e)) && path <= below
    ensures Agrees(h, v, active, path, Failure(e))
  {
    FieldIsKid(h, v, fs, i);
    KidFails(h, v, active, |VisitedFields(h, fs[..i])|, path, below, e);
  }

  lemma EmbeddedFails(h: Heap, v: Value, fs: seq<Field>, i: nat, active: set<nat>, path: Path)
    requires v.Concrete? && v.body == Struct(fs) && !Rejected(h, v) && i < |fs| && Considered(fs[i]) && Embedded(fs[i])
    ensures Agrees(h, v, active, path, Failure(NormalizeError(path + [Member(fs[i].name)], EmbeddedField)))
  {
    var below := path + [Member(fs[i].name)];
    RejectedHasNoTree(h, UNSUPPORTED);
    FieldFails(h, v, fs, i, active, path, below, NormalizeError(below, EmbeddedField));
  }

  lemma StructAgrees(h: Heap, v: Value, fs: seq<Field>, active: set<nat>, path: Path, js: seq<Json>,
                     out: map<string, Json>)
    requires v.Concrete? && v.body == Struct(fs) && !Rejected(h, v) && FieldsDone(h, fs, active, js, out)
    ensures Agrees(h, v, active, path, Success(JObject(out)))
  {
    AgreesFromKids(h, v, active, path, Success(js));
  }

  method NormalizeStruct(h: Heap, v: Value, fields: seq<Field>, path: Path, seen: Seen, ghost active: set<nat>,
                         ghost root: Value)
    returns (r: Result<Json, NormalizeError>)
    requires v.Concrete? && v.body == Struct(fields) && !Rejected(h, v)
    requires seen.paths.Keys == active && Above(seen.paths, path) && TracksParts(h, root, seen.paths, path, v)
    modifies seen
    ensures seen.paths == old(seen.paths)
    ensures Settles(h, root, v, active, path, r)
    decreases Addresses(h) - active, Size(v), 0
  {
    var out: map<string, Json> := map[];
    ghost var js: seq<Json> := [];
    for i := 0 to |fields|
      invariant seen.paths == old(seen.paths)
      invariant FieldsDone(h, fields[..i], active, js, out)
    {
      var field := fields[i];
      if !field.exported || field.skip {
        FieldDone(h, fields, i, active, js, out, JNull);
        continue;
      }
      if field.anonymous && field.explicitName.None? {
        EmbeddedFails(h, v, fields, i, active, path);
        BlamesEmbedded(h, root, path, v, i);
        return Failure(NormalizeError(path + [Member(field.name)], EmbeddedField));
      }
      if field.omitEmpty && IsEmpty(h, field.value) {
        FieldDone(h, fields, i, active, js, out, JNull);
        continue;
      }
      FieldIsSmaller(fields, i);
      var below := path + [Member(FieldName(field))];
      assert Selects(h, v, Member(FieldName(field)), field.value);
      var item := NormalizeValue(h, field.value, below, seen, root);
      if item.Failure? {
        FieldFails(h, v, fields, i, active, path, below, item.error);
        return Failure(item.error);
      }
      FieldDone(h, fields, i, active, js, out, item.value);
      js := js + [item.value];
      out := out[FieldName(field) := item.value];
    }
    assert fields[..|fields|] == fields;
    StructAgrees(h, v, fields, active, path, js, out);
    r := Success(JObject(out));
  }

  /**
   A whole conversion. It succeeds exactly on the values that have a finite tree
   and in which no path enters an address twice, and then returns the tree. A
   value with a finite tree is refused only as a cycle. The path of an error leads
   to a value of the kind it reports.
   */
  method Normalize(h: Heap, value: Value) returns (r: Result<Json, NormalizeError>)
    ensures r.Success? <==> (exists depth :: Tree(h, value, depth).Some?) && Acyclic(h, value, {})
    ensures r.Success? ==> exists depth :: Tree(h, value, depth) == Some(r.value)
    ensures r.Failure? && r.error.kind.Cycle? ==> !Acyclic(h, value, {}) && r.error.kind.prior <= r.error.path
    ensures r.Failure? && !r.error.kind.Cycle? ==> !exists depth :: Tree(h, value, depth).Some?
    ensures r.Failure? ==> Blames(h, value, r.error)
  {
    var seen := new Seen();
    assert seen.paths.Keys == {};
    ReachesItself(h, value);
    r := NormalizeValue(h, value, [], seen, value);
    AcceptedExactly(h, value);
    if r.Success? {
      ghost var depth := UnfoldIsTree(h, value, {});
    }
  }
}
