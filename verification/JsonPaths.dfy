/** Where a part of a value lies, and which values an error may name. */
module JsonPaths {
  import opened Wrappers
  import opened JsonValues

  datatype Step = Member(name: string) | Index(i: nat)

  type Path = seq<Step>

  datatype ErrorKind =
    | Cycle(prior: Path)
    | TimeValue
    | MarshalerValue
    | NotFiniteNumber
    | ByteSequence
    | MapKeysNotStrings
    | EmbeddedField
    | UnsupportedValue

  datatype NormalizeError = NormalizeError(path: Path, kind: ErrorKind)

  // ---- Parts ----

  /** The field is part of the document under the name `k`: its tag name, or its Go name without one. */
  ghost predicate Names(f: Field, k: string) {
    f.exported && !f.skip && (f.explicitName == Some(k) || (f.explicitName == None && f.name == k))
  }

  /** `u` is the element, map entry or struct field of `v` that one step of a path selects. */
  ghost predicate Selects(h: Heap, v: Value, step: Step, u: Value) {
    v.Concrete? &&
    match v.body
    case Map(Some(r), _) => r in h && h[r].Entries? && step.Member? && step.name in h[r].m && u == h[r].m[step.name]
    case Slice(Some(r), _) => r in h && h[r].Items? && step.Index? && step.i < |h[r].vs| && u == h[r].vs[step.i]
    case Array(elems, _) => step.Index? && step.i < |elems| && u == elems[step.i]
    case Struct(fs) => step.Member? && exists i :: 0 <= i < |fs| && Names(fs[i], step.name) && u == fs[i].value
    case _ => false
  }

  /** `u` is what the interface or pointer `v` holds; no path step is spent on it. */
  ghost predicate Dereferences(h: Heap, v: Value, u: Value) {
    match v
    case Interface(Some(e)) => u == e
    case Pointer(Some(r)) => r in h && h[r] == Target(u)
    case _ => false
  }

  ghost predicate Extends(h: Heap, above: Path, v: Value, path: Path, u: Value) {
    || (path == above && Dereferences(h, v, u))
    || (path != [] && path[..|path| - 1] == above && Selects(h, v, path[|path| - 1], u))
  }

  /** `u` lies at `path` in `v`, `n` levels down. */
  ghost predicate ReachesIn(h: Heap, v: Value, path: Path, u: Value, n: nat)
    decreases n
  {
    if n == 0 then path == [] && u == v
    else exists above, w :: ReachesIn(h, v, above, w, n - 1) && Extends(h, above, w, path, u)
  }

  ghost predicate Reaches(h: Heap, v: Value, path: Path, u: Value) {
    exists n: nat :: ReachesIn(h, v, path, u, n)
  }

  /** `u` lies at `path` strictly inside `v`. */
  ghost predicate Inside(h: Heap, v: Value, path: Path, u: Value) {
    exists n: nat :: n > 0 && ReachesIn(h, v, path, u, n)
  }

  /** The address is entered at `prior`, by a value that `v`, at `path`, is strictly inside of. */
  ghost predicate EnteredBy(h: Heap, root: Value, prior: Path, address: nat, path: Path, v: Value, outer: Value) {
    && prior <= path && Reaches(h, root, prior, outer) && Inside(h, outer, path[|prior|..], v)
    && Enters(outer).Some? && Enters(outer).value.address == address
  }

  ghost predicate EnteredAbove(h: Heap, root: Value, prior: Path, address: nat, path: Path, v: Value) {
    exists outer :: EnteredBy(h, root, prior, address, path, v, outer)
  }

  // ---- Errors ----

  /** The value is of the kind the error speaks of. */
  ghost predicate Fits(h: Heap, root: Value, path: Path, u: Value, kind: ErrorKind) {
    match kind
    case Cycle(prior) => Enters(u).Some? && EnteredAbove(h, root, prior, Enters(u).value.address, path, u)
    case TimeValue => u.Concrete? && u.ty.isTime
    case MarshalerValue => u.Concrete? && u.ty.isMarshaler && !u.ty.isTime
    case NotFiniteNumber => u.Concrete? && u.body == Float(None)
    case ByteSequence => u.Concrete? && ((u.body.Slice? && u.body.ofBytes) || (u.body.Array? && u.body.arrayOfBytes))
    case MapKeysNotStrings => u.Concrete? && u.body.Map? && !u.body.stringKeys
    case EmbeddedField => false
    case UnsupportedValue => (u.Concrete? && u.body.Unsupported?) || Dangling(h, u)
  }

  /** A reference no heap cell answers. */
  ghost predicate Dangling(h: Heap, u: Value) {
    match u
    case Pointer(Some(r)) => !(r in h && h[r].Target?)
    case Concrete(_, Map(Some(r), _)) => !(r in h && h[r].Entries?)
    case Concrete(_, Slice(Some(r), _)) => !(r in h && h[r].Items?)
    case _ => false
  }

  ghost predicate EmbedsField(u: Value, name: string) {
    u.Concrete? && u.body.Struct? &&
    exists i :: 0 <= i < |u.body.fields| && Names(u.body.fields[i], name)
                && u.body.fields[i].anonymous && u.body.fields[i].explicitName == None
  }

  /** A struct at `path` has an embedded field of that name. */
  ghost predicate BlamesField(h: Heap, root: Value, path: Path, name: string) {
    exists u :: Reaches(h, root, path, u) && EmbedsField(u, name)
  }

  /** The error's path leads to a value that is what the error says it is. */
  ghost predicate Blames(h: Heap, root: Value, e: NormalizeError) {
    if e.kind.EmbeddedField?
    then exists path, name :: e.path == path + [Member(name)] && BlamesField(h, root, path, name)
    else exists u :: Reaches(h, root, e.path, u) && Fits(h, root, e.path, u, e.kind)
  }

  // ---- Going down ----

  /** `v` lies at `path`, inside the values that entered the addresses of `paths`. */
  ghost predicate Tracks(h: Heap, root: Value, paths: map<nat, Path>, path: Path, v: Value) {
    && Reaches(h, root, path, v)
    && forall a :: a in paths ==> EnteredAbove(h, root, paths[a], a, path, v)
  }

  /** The same for every part of `v`. */
  ghost predicate TracksParts(h: Heap, root: Value, paths: map<nat, Path>, path: Path, v: Value) {
    && Reaches(h, root, path, v)
    && forall step, u :: Selects(h, v, step, u) ==> Tracks(h, root, paths, path + [step], u)
  }

  lemma ReachesItself(h: Heap, root: Value)
    ensures Tracks(h, root, map[], [], root)
  {
    assert ReachesIn(h, root, [], root, 0);
  }

  lemma ReachesFurther(h: Heap, v: Value, above: Path, w: Value, path: Path, u: Value)
    requires Reaches(h, v, above, w) && Extends(h, above, w, path, u)
    ensures Reaches(h, v, path, u) && Inside(h, v, path, u)
  {
    var n: nat :| ReachesIn(h, v, above, w, n);
    assert ReachesIn(h, v, above, w, n + 1 - 1) && Extends(h, above, w, path, u);
    assert ReachesIn(h, v, path, u, n + 1);
  }

  /** Going down one level keeps what was entered above, and adds what `v` itself entered. */
  lemma EnteredFurther(h: Heap, root: Value, prior: Path, a: nat, above: Path, v: Value, path: Path, u: Value)
    requires Extends(h, above, v, path, u)
    requires EnteredAbove(h, root, prior, a, above, v)
             || (prior == above && Reaches(h, root, above, v) && Enters(v).Some? && Enters(v).value.address == a)
    ensures EnteredAbove(h, root, prior, a, path, u)
  {
    if EnteredAbove(h, root, prior, a, above, v) {
      var outer :| EnteredBy(h, root, prior, a, above, v, outer);
      FurtherFrom(h, outer, prior, above, v, path, u);
      assert EnteredBy(h, root, prior, a, path, u, outer);
    } else {
      assert ReachesIn(h, v, above[|above|..], v, 0);
      FurtherFrom(h, v, above, above, v, path, u);
      assert EnteredBy(h, root, prior, a, path, u, v);
    }
  }

  lemma FurtherFrom(h: Heap, outer: Value, prior: Path, above: Path, v: Value, path: Path, u: Value)
    requires prior <= above && Reaches(h, outer, above[|prior|..], v) && Extends(h, above, v, path, u)
    ensures prior <= path && Inside(h, outer, path[|prior|..], u)
  {
    if !(path == above && Dereferences(h, v, u)) {
      assert path[..|path| - 1] == above;
      assert path[|prior|..][..|path| - 1 - |prior|] == above[|prior|..];
    }
    ReachesFurther(h, outer, above[|prior|..], v, path[|prior|..], u);
  }

  lemma TracksDereferenced(h: Heap, root: Value, paths: map<nat, Path>, path: Path, v: Value, u: Value)
    requires Tracks(h, root, paths, path, v) && Dereferences(h, v, u)
    ensures Tracks(h, root, paths, path, u)
    ensures Enters(v).Some? ==> Tracks(h, root, paths[Enters(v).value.address := path], path, u)
  {
    ReachesFurther(h, root, path, v, path, u);
    forall a | a in paths ensures EnteredAbove(h, root, paths[a], a, path, u) {
      EnteredFurther(h, root, paths[a], a, path, v, path, u);
    }
    if Enters(v).Some? {
      EnteredFurther(h, root, path, Enters(v).value.address, path, v, path, u);
    }
  }

  lemma TracksSelected(h: Heap, root: Value, paths: map<nat, Path>, path: Path, v: Value, step: Step, u: Value)
    requires Tracks(h, root, paths, path, v) && Selects(h, v, step, u)
    ensures Tracks(h, root, paths, path + [step], u)
    ensures Enters(v).Some? ==> Tracks(h, root, paths[Enters(v).value.address := path], path + [step], u)
  {
    var below := path + [step];
    assert below[..|below| - 1] == path;
    ReachesFurther(h, root, path, v, below, u);
    forall a | a in paths ensures EnteredAbove(h, root, paths[a], a, below, u) {
      EnteredFurther(h, root, paths[a], a, path, v, below, u);
    }
    if Enters(v).Some? {
      EnteredFurther(h, root, path, Enters(v).value.address, path, v, below, u);
    }
  }

  lemma TracksInto(h: Heap, root: Value, paths: map<nat, Path>, path: Path, v: Value)
    requires Tracks(h, root, paths, path, v)
    ensures TracksParts(h, root, paths, path, v)
    ensures Enters(v).Some? ==> TracksParts(h, root, paths[Enters(v).value.address := path], path, v)
  {
    forall step, u | Selects(h, v, step, u) {
      TracksSelected(h, root, paths, path, v, step, u);
    }
  }
}
