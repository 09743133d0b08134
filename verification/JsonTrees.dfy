/**
 What the tree of a value is, read off the Go value alone: scalars, nils,
 pointers, lists, maps and structs, field by field.
 */
module JsonTrees {
  import opened Wrappers
  import opened JsonValues
  import opened JsonUnfold

  predicate Ordinary(ty: Type) {
    !ty.isTime && !ty.isMarshaler
  }

  // ---- Scalars and nils ----

  /** The Go scalar a JSON scalar stands for. */
  function ReadScalar(j: Json): Option<Body> {
    match j
    case JBool(b) => Some(Bool(b))
    case JString(s) => Some(String(s))
    case JInt(i) => Some(Int(i))
    case JUint(n) => Some(Uint(n))
    case JFloat(f) => Some(Float(Some(f)))
    case _ => None
  }

  /** Every boolean, string and finite number has a tree, from which it reads back. */
  lemma ScalarReadsBack(h: Heap, ty: Type, body: Body, depth: nat)
    requires Ordinary(ty) && depth > 0
    requires body.Bool? || body.String? || body.Int? || body.Uint? || (body.Float? && body.f.Some?)
    ensures Tree(h, Concrete(ty, body), depth).Some?
    ensures ReadScalar(Tree(h, Concrete(ty, body), depth).value) == Some(body)
  {
  }

  /** Nil pointers, interfaces, maps and slices are null, whatever a map's keys or a slice's elements would be. */
  lemma NilIsNull(h: Heap, ty: Type, flag: bool, depth: nat)
    requires Ordinary(ty) && depth > 0
    ensures Tree(h, Pointer(None), depth) == Tree(h, Interface(None), depth) == Tree(h, Invalid, depth) == Some(JNull)
    ensures Tree(h, Concrete(ty, Map(None, flag)), depth) == Some(JNull)
    ensures Tree(h, Concrete(ty, Slice(None, flag)), depth) == Some(JNull)
  {
  }

  /** Values without a tree at any depth, each for a reason of its own. */
  lemma RefusedValues(h: Heap, ty: Type, body: Body, ref: Ref, es: seq<Value>)
    ensures !Ordinary(ty) ==> NoTree(h, Concrete(ty, body))
    ensures NoTree(h, Concrete(ty, Float(None))) && NoTree(h, Concrete(ty, Unsupported))
    ensures NoTree(h, Concrete(ty, Map(Some(ref), false)))
    ensures NoTree(h, Concrete(ty, Slice(Some(ref), true))) && NoTree(h, Concrete(ty, Array(es, true)))
  {
    assert Rejected(h, Concrete(ty, Array(es, true)));
  }

  // ---- Pointers and lists ----

  lemma OneKidTree(h: Heap, v: Value, kid: Value, depth: nat)
    requires Kids(h, v) == [kid] && !Rejected(h, v) && (v.Pointer? || v.Interface?) && depth > 0
    ensures Tree(h, v, depth) == Tree(h, kid, depth - 1)
  {
    assert [kid][..0] == [];
    assert TreeAll(h, [], depth - 1) == Some([]);
  }

  /** A pointer's tree is its target's, an interface's that of what it holds. */
  lemma Transparent(h: Heap, ref: Ref, v: Value, depth: nat)
    requires depth > 0
    ensures ref in h && h[ref] == Target(v) ==> Tree(h, Pointer(Some(ref)), depth) == Tree(h, v, depth - 1)
    ensures Tree(h, Interface(Some(v)), depth) == Tree(h, v, depth - 1)
  {
    OneKidTree(h, Interface(Some(v)), v, depth);
    if ref in h && h[ref] == Target(v) { OneKidTree(h, Pointer(Some(ref)), v, depth); }
  }

  ghost function TreeAt(h: Heap, depth: nat): Value -> Option<Json> {
    (v: Value) => Tree(h, v, depth)
  }

  ghost function TreesAt(h: Heap, depth: nat): seq<Value> -> Option<seq<Json>> {
    (vs: seq<Value>) => TreeAll(h, vs, depth)
  }

  lemma TreeAllIs(h: Heap, vs: seq<Value>, depth: nat)
    ensures TreeAll(h, vs, depth).Some? <==> forall i :: 0 <= i < |vs| ==> Tree(h, vs[i], depth).Some?
    ensures TreeAll(h, vs, depth).Some? ==>
              forall i :: 0 <= i < |vs| ==> Tree(h, vs[i], depth) == Some(TreeAll(h, vs, depth).value[i])
  {
    var f, all := TreeAt(h, depth), TreesAt(h, depth);
    forall k | 0 <= k < |vs| ensures all(vs[..k + 1]) == Snoc(all(vs[..k]), f(vs[k])) {
      assert vs[..k + 1] == vs[..k] + [vs[k]];
      TreeOneMore(h, vs[..k], vs[k], depth);
    }
    EachConverts(f, all, vs, |vs|);
    assert vs[..|vs|] == vs;
  }

  /** The elements a slice or an array holds. */
  ghost predicate Lists(h: Heap, v: Value, vs: seq<Value>) {
    && v.Concrete? && Ordinary(v.ty)
    && match v.body
       case Array(es, ofBytes) => es == vs && !ofBytes
       case Slice(Some(ref), ofBytes) => ref in h && h[ref] == Items(vs) && !ofBytes
       case _ => false
  }

  /** A list has a tree exactly when its elements have, and then it is theirs in order. */
  lemma ListTree(h: Heap, v: Value, vs: seq<Value>, depth: nat, js: seq<Json>)
    requires Lists(h, v, vs) && depth > 0
    ensures Tree(h, v, depth) == Some(JArray(js)) <==>
            |js| == |vs| && forall i :: 0 <= i < |vs| ==> Tree(h, vs[i], depth - 1) == Some(js[i])
    ensures Tree(h, v, depth).Some? ==> Tree(h, v, depth).value.JArray?
  {
    assert Kids(h, v) == vs && !Rejected(h, v);
    TreeAllIs(h, vs, depth - 1);
    var all := TreeAll(h, vs, depth - 1);
    assert Tree(h, v, depth) == if all.None? then None else Some(JArray(all.value));
    if |js| == |vs| && forall i :: 0 <= i < |vs| ==> Tree(h, vs[i], depth - 1) == Some(js[i]) {
      assert all.value == js;
    }
  }

  // ---- Maps ----

  lemma {:induction false} ZipAt(names: seq<string>, js: seq<Json>, i: nat)
    requires |names| == |js| && i < |names| && forall j :: i < j < |names| ==> names[j] != names[i]
    ensures names[i] in names && Zip(names, js)[names[i]] == js[i]
  {
    var n := |names| - 1;
    if i < n { ZipAt(names[..n], js[..n], i); }
  }

  lemma ZipByKey(ks: seq<string>, js: seq<Json>, k: string) returns (i: nat)
    requires |ks| == |js| && k in ks && forall i, j :: 0 <= i < j < |ks| ==> ks[i] != ks[j]
    ensures i < |ks| && ks[i] == k && k in Zip(ks, js) && Zip(ks, js)[k] == js[i]
  {
    i :| 0 <= i < |ks| && ks[i] == k;
    ZipAt(ks, js, i);
  }

  /** `v` is the map that `ref` leads to. */
  ghost predicate IsMap(h: Heap, v: Value, ref: Ref, m: map<string, Value>) {
    v.Concrete? && v.body == Map(Some(ref), true) && ref in h && h[ref] == Entries(m)
  }

  lemma MapKid(h: Heap, v: Value, ref: Ref, m: map<string, Value>, i: nat)
    requires IsMap(h, v, ref, m) && Ordinary(v.ty) && i < |KeySeq(m.Keys)|
    ensures |Kids(h, v)| == |KeySeq(m.Keys)| && KeySeq(m.Keys)[i] in m && Kids(h, v)[i] == m[KeySeq(m.Keys)[i]]
  {
    assert KeySeq(m.Keys)[i] in KeySeq(m.Keys);
  }

  /** The trees of a map's values, in the order of some enumeration of its keys, make up `members`. */
  ghost predicate MapBuilt(h: Heap, v: Value, m: map<string, Value>, depth: nat, js: seq<Json>,
                           members: map<string, Json>)
  {
    && v.Concrete? && Ordinary(v.ty) && |js| == |KeySeq(m.Keys)|
    && TreeAll(h, Kids(h, v), depth) == Some(js) && members == Zip(KeySeq(m.Keys), js)
  }

  lemma MapBuilds(h: Heap, v: Value, ref: Ref, m: map<string, Value>, depth: nat, j: Json) returns (js: seq<Json>)
    requires IsMap(h, v, ref, m) && Tree(h, v, depth + 1) == Some(j)
    ensures j.JObject? && MapBuilt(h, v, m, depth, js, j.members)
  {
    js := TreeAll(h, Kids(h, v), depth).value;
  }

  /** Under `k` stands the tree of the map's value, or nothing if the map has none. */
  ghost predicate HoldsEntry(h: Heap, m: map<string, Value>, depth: nat, members: map<string, Json>, k: string) {
    if k in m then k in members && Tree(h, m[k], depth) == Some(members[k]) else k !in members
  }

  lemma EntryHolds(h: Heap, v: Value, ref: Ref, m: map<string, Value>, depth: nat, js: seq<Json>,
                   members: map<string, Json>, k: string)
    requires IsMap(h, v, ref, m) && MapBuilt(h, v, m, depth, js, members)
    ensures HoldsEntry(h, m, depth, members, k)
  {
    if k in m {
      var i := ZipByKey(KeySeq(m.Keys), js, k);
      MapKid(h, v, ref, m, i);
      TreeAllIs(h, Kids(h, v), depth);
    }
  }

  /** A map with a tree is the object with the same keys, each with the tree of its value. */
  lemma MapTree(h: Heap, v: Value, ref: Ref, m: map<string, Value>, depth: nat, j: Json, k: string)
    requires IsMap(h, v, ref, m) && Tree(h, v, depth + 1) == Some(j)
    ensures j.JObject? && HoldsEntry(h, m, depth, j.members, k)
  {
    var js := MapBuilds(h, v, ref, m, depth, j);
    EntryHolds(h, v, ref, m, depth, js, j.members, k);
  }

  /** A map has a tree exactly when its values have. */
  lemma MapHasTree(h: Heap, v: Value, ref: Ref, m: map<string, Value>, depth: nat)
    requires IsMap(h, v, ref, m) && Ordinary(v.ty)
    ensures Tree(h, v, depth + 1).Some? <==> forall k :: k in m ==> Tree(h, m[k], depth).Some?
  {
    var kids := Kids(h, v);
    if Tree(h, v, depth + 1).Some? {
      forall k | k in m ensures Tree(h, m[k], depth).Some? {
        MapTree(h, v, ref, m, depth, Tree(h, v, depth + 1).value, k);
      }
    }
    if forall k :: k in m ==> Tree(h, m[k], depth).Some? {
      assert |kids| == |KeySeq(m.Keys)|;
      forall i | 0 <= i < |kids| ensures Tree(h, kids[i], depth).Some? { MapKid(h, v, ref, m, i); }
      TreeAllIs(h, kids, depth);
    }
  }

  // ---- Structs ----

  /** False, zero, the empty string, nil, and whatever has length zero. */
  ghost predicate ZeroOrEmpty(h: Heap, v: Value) {
    || v == Pointer(None)
    || v == Interface(None)
    || (v.Concrete? && v.body in {Bool(false), String(""), Int(0), Uint(0), Float(Some(0.0))})
    || (v.Concrete? && v.body.Array? && |v.body.elems| == 0)
    || (v.Concrete? && v.body.Map? && v.body.entries == None)
    || (v.Concrete? && v.body.Slice? && v.body.items == None)
    || (v.Concrete? && v.body.Map? && v.body.entries.value in h && h[v.body.entries.value] == Entries(map[]))
    || (v.Concrete? && v.body.Slice? && v.body.items.value in h && h[v.body.items.value] == Items([]))
  }

  /** The field takes part in the document, under whatever name. */
  ghost predicate Written(h: Heap, f: Field) {
    f.exported && !f.skip && !(f.omitEmpty && ZeroOrEmpty(h, f.value))
  }

  /** The field is written under the name `k`: the tag's name, or its own without one. */
  ghost predicate Shows(h: Heap, f: Field, k: string) {
    && Written(h, f)
    && match f.explicitName
       case Some(tag) => k == tag
       case None => k == f.name
  }

  lemma EmptyIsZero(h: Heap, v: Value)
    ensures IsEmpty(h, v) <==> ZeroOrEmpty(h, v)
  {
  }

  /** Entry `i` is the last of the first `n` shown under `k`. */
  ghost predicate LastShown(shows: (nat, string) -> bool, n: nat, k: string, i: nat) {
    i < n && shows(i, k) && forall j: nat :: i < j < n ==> !shows(j, k)
  }

  /** A map written entry by entry: the names shown so far, each with the value of its last entry. */
  ghost predicate WrittenSoFar(shows: (nat, string) -> bool, value: nat -> Option<Json>, n: nat, m: map<string, Json>) {
    && (forall k :: k in m <==> exists i: nat :: i < n && shows(i, k))
    && (forall k, i: nat :: LastShown(shows, n, k, i) ==> k in m && value(i) == Some(m[k]))
  }

  lemma WriteNothing(shows: (nat, string) -> bool, value: nat -> Option<Json>, n: nat, m: map<string, Json>)
    requires WrittenSoFar(shows, value, n, m) && forall k :: !shows(n, k)
    ensures WrittenSoFar(shows, value, n + 1, m)
  {
    forall k, i: nat | LastShown(shows, n + 1, k, i) ensures k in m && value(i) == Some(m[k]) {
      assert LastShown(shows, n, k, i);
    }
  }

  lemma WriteOne(shows: (nat, string) -> bool, value: nat -> Option<Json>, n: nat, m: map<string, Json>,
                 name: string, j: Json)
    requires WrittenSoFar(shows, value, n, m) && (forall k :: shows(n, k) <==> k == name) && value(n) == Some(j)
    ensures WrittenSoFar(shows, value, n + 1, m[name := j])
  {
    var m' := m[name := j];
    forall k ensures k in m' <==> exists i: nat :: i < n + 1 && shows(i, k) {
      if k == name { assert shows(n, k); }
    }
    forall k, i: nat | LastShown(shows, n + 1, k, i) ensures k in m' && value(i) == Some(m'[k]) {
      if i < n {
        assert !shows(n, k);
        assert LastShown(shows, n, k, i);
      }
    }
  }

  /** The fields of a struct as entries, and the trees of their values. */
  ghost function ShowsOf(h: Heap, fs: seq<Field>): (nat, string) -> bool {
    (i: nat, k: string) => i < |fs| && Shows(h, fs[i], k)
  }

  ghost function TreeOf(h: Heap, fs: seq<Field>, depth: nat): nat -> Option<Json> {
    (i: nat) => if i < |fs| then Tree(h, fs[i].value, depth) else None
  }

  lemma HiddenField(h: Heap, f: Field, k: string)
    requires !Visited(h, f)
    ensures !Shows(h, f, k)
  {
    EmptyIsZero(h, f.value);
  }

  lemma VisitedField(h: Heap, f: Field, k: string, depth: nat)
    requires Visited(h, f) && Tree(h, FieldValue(f), depth).Some?
    ensures FieldValue(f) == f.value && (Shows(h, f, k) <==> k == FieldName(f))
  {
    EmptyIsZero(h, f.value);
    RejectedHasNoTree(h, UNSUPPORTED);
  }

  /** The members of a struct after its first fields. */
  ghost function Members(h: Heap, fs: seq<Field>, depth: nat): map<string, Json>
    requires TreeAll(h, FieldValues(VisitedFields(h, fs)), depth).Some?
  {
    Zip(FieldNames(VisitedFields(h, fs)), TreeAll(h, FieldValues(VisitedFields(h, fs)), depth).value)
  }

  lemma VisitedNext(h: Heap, fs: seq<Field>, n: nat)
    requires n < |fs|
    ensures VisitedFields(h, fs[..n + 1])
            == VisitedFields(h, fs[..n]) + if Visited(h, fs[n]) then [fs[n]] else []
  {
    assert fs[..n + 1][..n] == fs[..n];
  }

  lemma AppendVisited(h: Heap, before: seq<Field>, f: Field, depth: nat)
    requires TreeAll(h, FieldValues(before + [f]), depth).Some?
    ensures TreeAll(h, FieldValues(before), depth).Some? && Tree(h, FieldValue(f), depth).Some?
    ensures Zip(FieldNames(before + [f]), TreeAll(h, FieldValues(before + [f]), depth).value)
            == Zip(FieldNames(before), TreeAll(h, FieldValues(before), depth).value)
               [FieldName(f) := Tree(h, FieldValue(f), depth).value]
  {
    assert FieldValues(before + [f]) == FieldValues(before) + [FieldValue(f)];
    assert FieldNames(before + [f]) == FieldNames(before) + [FieldName(f)];
    TreeOneMore(h, FieldValues(before), FieldValue(f), depth);
    var js := TreeAll(h, FieldValues(before), depth).value;
    ZipOneMore(FieldNames(before), js, FieldName(f), Tree(h, FieldValue(f), depth).value);
  }

  lemma MembersNext(h: Heap, fs: seq<Field>, n: nat, depth: nat)
    requires n < |fs| && TreeAll(h, FieldValues(VisitedFields(h, fs[..n + 1])), depth).Some?
    ensures TreeAll(h, FieldValues(VisitedFields(h, fs[..n])), depth).Some?
    ensures if Visited(h, fs[n])
            then Tree(h, FieldValue(fs[n]), depth).Some?
                 && Members(h, fs[..n + 1], depth)
                    == Members(h, fs[..n], depth)[FieldName(fs[n]) := Tree(h, FieldValue(fs[n]), depth).value]
            else Members(h, fs[..n + 1], depth) == Members(h, fs[..n], depth)
  {
    VisitedNext(h, fs, n);
    var before := VisitedFields(h, fs[..n]);
    if Visited(h, fs[n]) {
      AppendVisited(h, before, fs[n], depth);
    } else {
      assert before + [] == before;
    }
  }

  lemma TreeOneMore(h: Heap, vs: seq<Value>, v: Value, depth: nat)
    ensures TreeAll(h, vs + [v], depth) == Snoc(TreeAll(h, vs, depth), Tree(h, v, depth))
  {
    assert (vs + [v])[..|vs|] == vs;
  }

  lemma ZipOneMore(names: seq<string>, js: seq<Json>, name: string, j: Json)
    requires |names| == |js|
    ensures Zip(names + [name], js + [j]) == Zip(names, js)[name := j]
  {
    assert (names + [name])[..|names|] == names;
    assert (js + [j])[..|js|] == js;
  }

  lemma {:induction false} FieldsTree(h: Heap, fs: seq<Field>, n: nat, depth: nat)
    requires n <= |fs| && TreeAll(h, FieldValues(VisitedFields(h, fs[..n])), depth).Some?
    ensures WrittenSoFar(ShowsOf(h, fs), TreeOf(h, fs, depth), n, Members(h, fs[..n], depth))
  {
    var shows, value := ShowsOf(h, fs), TreeOf(h, fs, depth);
    if n > 0 {
      var p := n - 1;
      var f := fs[p];
      MembersNext(h, fs, p, depth);
      FieldsTree(h, fs, p, depth);
      var before := Members(h, fs[..p], depth);
      if Visited(h, f) {
        forall k ensures shows(p, k) <==> k == FieldName(f) { VisitedField(h, f, k, depth); }
        VisitedField(h, f, f.name, depth);
        WriteOne(shows, value, p, before, FieldName(f), Tree(h, FieldValue(f), depth).value);
      } else {
        forall k ensures !shows(p, k) { HiddenField(h, f, k); }
        WriteNothing(shows, value, p, before);
      }
    }
  }

  /** Field `i` is the last written under `k`. */
  ghost predicate LastNamed(h: Heap, fs: seq<Field>, k: string, i: nat) {
    i < |fs| && Shows(h, fs[i], k) && forall j :: i < j < |fs| ==> !Shows(h, fs[j], k)
  }

  /** The members of a struct: the names its fields are written under, each with the tree of the last such field. */
  ghost predicate HoldsFields(h: Heap, fs: seq<Field>, depth: nat, members: map<string, Json>) {
    && (forall k :: k in members <==> exists i: nat :: i < |fs| && Shows(h, fs[i], k))
    && (forall k, i: nat :: LastNamed(h, fs, k, i) ==> k in members && Tree(h, fs[i].value, depth) == Some(members[k]))
  }

  lemma StructBuilds(h: Heap, v: Value, fs: seq<Field>, depth: nat, j: Json)
    requires v.Concrete? && v.body == Struct(fs) && Tree(h, v, depth) == Some(j)
    ensures depth > 0 && TreeAll(h, FieldValues(VisitedFields(h, fs)), depth - 1).Some?
    ensures j == JObject(Members(h, fs, depth - 1))
  {
  }

  lemma WrittenHolds(h: Heap, fs: seq<Field>, depth: nat, m: map<string, Json>)
    requires WrittenSoFar(ShowsOf(h, fs), TreeOf(h, fs, depth), |fs|, m)
    ensures HoldsFields(h, fs, depth, m)
  {
    var shows, value := ShowsOf(h, fs), TreeOf(h, fs, depth);
    forall k ensures k in m <==> exists i: nat :: i < |fs| && Shows(h, fs[i], k) {
      if i: nat :| i < |fs| && Shows(h, fs[i], k) { assert shows(i, k); }
      if i: nat :| i < |fs| && shows(i, k) { assert Shows(h, fs[i], k); }
    }
    forall k, i: nat | LastNamed(h, fs, k, i) ensures k in m && Tree(h, fs[i].value, depth) == Some(m[k]) {
      assert LastShown(shows, |fs|, k, i);
      assert value(i) == Tree(h, fs[i].value, depth);
    }
  }

  lemma FieldsHold(h: Heap, fs: seq<Field>, depth: nat)
    requires TreeAll(h, FieldValues(VisitedFields(h, fs)), depth).Some?
    ensures HoldsFields(h, fs, depth, Members(h, fs, depth))
  {
    assert fs[..|fs|] == fs;
    FieldsTree(h, fs, |fs|, depth);
    WrittenHolds(h, fs, depth, Members(h, fs, depth));
  }

  /** A struct with a tree is the object that holds its fields. */
  lemma StructTree(h: Heap, v: Value, fs: seq<Field>, depth: nat, j: Json)
    requires v.Concrete? && v.body == Struct(fs) && Tree(h, v, depth) == Some(j)
    ensures depth > 0 && j.JObject? && HoldsFields(h, fs, depth - 1, j.members)
  {
    StructBuilds(h, v, fs, depth, j);
    FieldsHold(h, fs, depth - 1);
  }

  /** An exported embedded field that is not skipped, without a tag name. */
  ghost predicate Embeds(f: Field) {
    f.exported && !f.skip && f.anonymous && f.explicitName == None
  }

  /** An exported embedded field without a tag name leaves a struct without a tree. */
  lemma EmbeddedHasNoTree(h: Heap, ty: Type, fs: seq<Field>, i: nat)
    requires i < |fs| && Embeds(fs[i])
    ensures NoTree(h, Concrete(ty, Struct(fs)))
  {
    var v := Concrete(ty, Struct(fs));
    if !Rejected(h, v) {
      RejectedHasNoTree(h, UNSUPPORTED);
      VisitedAt(h, fs, i);
      var p :| 0 <= p < |VisitedFields(h, fs)| && VisitedFields(h, fs)[p] == fs[i];
      assert Kids(h, v)[p] == UNSUPPORTED;
      NoTreeAbove(h, v, p);
    } else {
      RejectedHasNoTree(h, v);
    }
  }

  lemma WrittenIsVisited(h: Heap, f: Field, depth: nat)
    ensures Visited(h, f) <==> Written(h, f) || Embeds(f)
    ensures Tree(h, FieldValue(f), depth) == if Embeds(f) then None else Tree(h, f.value, depth)
  {
    EmptyIsZero(h, f.value);
    RejectedHasNoTree(h, UNSUPPORTED);
  }

  /** A field does not keep its struct from having a tree. */
  ghost predicate FieldHasTree(h: Heap, f: Field, depth: nat) {
    !Embeds(f) && (Written(h, f) ==> Tree(h, f.value, depth).Some?)
  }

  lemma FieldOfTree(h: Heap, fs: seq<Field>, depth: nat, i: nat)
    requires TreeAll(h, FieldValues(VisitedFields(h, fs)), depth).Some? && i < |fs|
    ensures FieldHasTree(h, fs[i], depth)
  {
    WrittenIsVisited(h, fs[i], depth);
    if Visited(h, fs[i]) {
      var visited := VisitedFields(h, fs);
      VisitedAt(h, fs, i);
      var p :| 0 <= p < |visited| && visited[p] == fs[i];
      TreeAllEach(h, FieldValues(visited), depth, p);
    }
  }

  lemma TreeOfFields(h: Heap, fs: seq<Field>, depth: nat)
    requires forall i :: 0 <= i < |fs| ==> FieldHasTree(h, fs[i], depth)
    ensures TreeAll(h, FieldValues(VisitedFields(h, fs)), depth).Some?
  {
    var visited := VisitedFields(h, fs);
    var kids := FieldValues(visited);
    forall p | 0 <= p < |kids| ensures Tree(h, kids[p], depth).Some? {
      var i := VisitedFrom(h, fs, p);
      assert FieldHasTree(h, fs[i], depth);
      WrittenIsVisited(h, fs[i], depth);
    }
    TreeAllIs(h, kids, depth);
  }

  /** A struct has a tree exactly when no field is embedded without a tag name and all written fields have one. */
  lemma StructHasTree(h: Heap, v: Value, fs: seq<Field>, depth: nat)
    requires v.Concrete? && v.body == Struct(fs) && Ordinary(v.ty)
    ensures Tree(h, v, depth + 1).Some? <==>
            forall i :: 0 <= i < |fs| ==> !Embeds(fs[i]) && (Written(h, fs[i]) ==> Tree(h, fs[i].value, depth).Some?)
  {
    if TreeAll(h, FieldValues(VisitedFields(h, fs)), depth).Some? {
      forall i | 0 <= i < |fs| ensures FieldHasTree(h, fs[i], depth) { FieldOfTree(h, fs, depth, i); }
    }
    if forall i :: 0 <= i < |fs| ==> FieldHasTree(h, fs[i], depth) { TreeOfFields(h, fs, depth); }
  }

  lemma {:induction false} VisitedFrom(h: Heap, fs: seq<Field>, p: nat) returns (i: nat)
    requires p < |VisitedFields(h, fs)|
    ensures i < |fs| && fs[i] == VisitedFields(h, fs)[p] && Visited(h, fs[i])
  {
    var n := |fs| - 1;
    if p < |VisitedFields(h, fs[..n])| {
      i := VisitedFrom(h, fs[..n], p);
    } else {
      i := n;
    }
  }

  lemma {:induction false} VisitedAt(h: Heap, fs: seq<Field>, i: nat)
    requires i < |fs| && Visited(h, fs[i])
    ensures fs[i] in VisitedFields(h, fs)
    decreases |fs|
  {
    if i < |fs| - 1 { VisitedAt(h, fs[..|fs| - 1], i); }
  }
}
