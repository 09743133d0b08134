/**
 Go values as reflection shows them, a heap of shared and possibly cyclic parts,
 and their unfolding into JSON trees.

 A reference is an address together with the view through which it is held: Go
 lets a struct and its first field, or a slice and its first element, share one
 address. References no heap cell answers cannot arise in Go; they count as
 unsupported values here.
 */
module JsonValues {
  import opened Wrappers

  datatype Ref = Ref(address: nat, view: nat)

  datatype Type = Type(isTime: bool, isMarshaler: bool)

  datatype Field = Field(
    name: string, exported: bool, anonymous: bool, skip: bool,
    explicitName: Option<string>, omitEmpty: bool, value: Value)

  datatype Body =
    | Bool(b: bool)
    | String(s: string)
    | Int(i: int)
    | Uint(n: nat)
    | Float(f: Option<real>)
    | Map(entries: Option<Ref>, stringKeys: bool)
    | Slice(items: Option<Ref>, ofBytes: bool)
    | Array(elems: seq<Value>, arrayOfBytes: bool)
    | Struct(fields: seq<Field>)
    | Unsupported

  /** `Float(None)` is NaN or infinite; `None` references and elements are nil. */
  datatype Value =
    | Invalid
    | Interface(elem: Option<Value>)
    | Pointer(target: Option<Ref>)
    | Concrete(ty: Type, body: Body)

  datatype Cell = Target(v: Value) | Entries(m: map<string, Value>) | Items(vs: seq<Value>)

  type Heap = map<Ref, Cell>

  datatype Json =
    | JNull
    | JBool(b: bool)
    | JString(s: string)
    | JInt(i: int)
    | JUint(n: nat)
    | JFloat(f: real)
    | JArray(items: seq<Json>)
    | JObject(members: map<string, Json>)

  // ---- Structs ----

  function FieldName(f: Field): string {
    if f.explicitName.Some? then f.explicitName.value else f.name
  }

  predicate Considered(f: Field) {
    f.exported && !f.skip
  }

  /** An embedded field must carry a tag name. */
  predicate Embedded(f: Field) {
    Considered(f) && f.anonymous && f.explicitName.None?
  }

  /** `isJSONEmptyValue`. */
  predicate IsEmpty(h: Heap, v: Value) {
    match v
    case Interface(e) => e.None?
    case Pointer(t) => t.None?
    case Invalid => false
    case Concrete(_, body) =>
      match body
      case Bool(b) => !b
      case String(s) => s == ""
      case Int(i) => i == 0
      case Uint(n) => n == 0
      case Float(f) => f == Some(0.0)
      case Map(r, _) => r.None? || (r.value in h && h[r.value].Entries? && h[r.value].m == map[])
      case Slice(r, _) => r.None? || (r.value in h && h[r.value].Items? && h[r.value].vs == [])
      case Array(es, _) => es == []
      case Struct(_) => false
      case Unsupported => false
  }

  /** An embedded field is looked at before omitempty is. */
  predicate Visited(h: Heap, f: Field) {
    Considered(f) && (Embedded(f) || !(f.omitEmpty && IsEmpty(h, f.value)))
  }

  const UNSUPPORTED := Concrete(Type(false, false), Unsupported)

  /** What stands for a visited field; an embedded one is never representable. */
  function FieldValue(f: Field): Value {
    if Embedded(f) then UNSUPPORTED else f.value
  }

  function VisitedFields(h: Heap, fs: seq<Field>): (r: seq<Field>)
    ensures |r| <= |fs|
  {
    if fs == [] then []
    else
      var n := |fs| - 1;
      if Visited(h, fs[n]) then VisitedFields(h, fs[..n]) + [fs[n]] else VisitedFields(h, fs[..n])
  }

  function FieldValues(fs: seq<Field>): (vs: seq<Value>)
    ensures |vs| == |fs| && forall i :: 0 <= i < |fs| ==> vs[i] == FieldValue(fs[i])
  {
    seq(|fs|, i requires 0 <= i < |fs| => FieldValue(fs[i]))
  }

  function FieldNames(fs: seq<Field>): (names: seq<string>)
    ensures |names| == |fs| && forall i :: 0 <= i < |fs| ==> names[i] == FieldName(fs[i])
  {
    seq(|fs|, i requires 0 <= i < |fs| => FieldName(fs[i]))
  }

  // ---- One level of a value ----

  /** Some enumeration of a set of keys. */
  ghost function KeySeq(keys: set<string>): (ks: seq<string>)
    ensures forall k :: k in ks <==> k in keys
    ensures forall i, j :: 0 <= i < j < |ks| ==> ks[i] != ks[j]
  {
    if keys == {} then []
    else
      var k :| k in keys;
      [k] + KeySeq(keys - {k})
  }

  /** The reference a value enters, if it is a pointer, map or slice that is not nil. */
  function Enters(v: Value): Option<Ref> {
    match v
    case Pointer(t) => t
    case Concrete(ty, Map(r, _)) => if ty.isTime || ty.isMarshaler then None else r
    case Concrete(ty, Slice(r, _)) => if ty.isTime || ty.isMarshaler then None else r
    case _ => None
  }

  /** The value cannot be represented, whatever its parts are. */
  predicate Rejected(h: Heap, v: Value) {
    match v
    case Invalid => false
    case Interface(_) => false
    case Pointer(t) => t.Some? && !(t.value in h && h[t.value].Target?)
    case Concrete(ty, body) =>
      || ty.isTime
      || ty.isMarshaler
      || match body
         case Float(f) => f.None?
         case Map(r, stringKeys) => r.Some? && !(stringKeys && r.value in h && h[r.value].Entries?)
         case Slice(r, ofBytes) => r.Some? && !(!ofBytes && r.value in h && h[r.value].Items?)
         case Array(_, ofBytes) => ofBytes
         case Unsupported => true
         case _ => false
  }

  /** The values directly inside, in the order their results are put together. */
  ghost function Kids(h: Heap, v: Value): seq<Value> {
    if Rejected(h, v) then []
    else match v
      case Invalid => []
      case Interface(e) => if e.Some? then [e.value] else []
      case Pointer(t) => if t.Some? then [h[t.value].v] else []
      case Concrete(_, body) =>
        match body
        case Map(r, _) =>
          if r.None? then []
          else
            var m := h[r.value].m;
            var ks := KeySeq(m.Keys);
            seq(|ks|, i requires 0 <= i < |ks| => assert ks[i] in ks; m[ks[i]])
        case Slice(r, _) => if r.None? then [] else h[r.value].vs
        case Array(es, _) => es
        case Struct(fs) => FieldValues(VisitedFields(h, fs))
        case _ => []
  }

  /** Pairs names with values; a later pair replaces an earlier one of the same name. */
  function Zip(names: seq<string>, js: seq<Json>): (m: map<string, Json>)
    requires |names| == |js|
    ensures forall k :: k in m <==> k in names
  {
    if names == [] then map[]
    else
      var n := |names| - 1;
      assert names == names[..n] + [names[n]];
      Zip(names[..n], js[..n])[names[n] := js[n]]
  }

  /** The tree of a value, given the trees of its parts. */
  ghost function Build(h: Heap, v: Value, js: seq<Json>): Json
    requires !Rejected(h, v) && |js| == |Kids(h, v)|
  {
    match v
    case Invalid => JNull
    case Interface(e) => if e.Some? then js[0] else JNull
    case Pointer(t) => if t.Some? then js[0] else JNull
    case Concrete(_, body) =>
      match body
      case Bool(b) => JBool(b)
      case String(s) => JString(s)
      case Int(i) => JInt(i)
      case Uint(n) => JUint(n)
      case Float(f) => JFloat(f.value)
      case Map(r, _) => if r.None? then JNull else JObject(Zip(KeySeq(h[r.value].m.Keys), js))
      case Slice(r, _) => if r.None? then JNull else JArray(js)
      case Array(_, _) => JArray(js)
      case Struct(fs) => JObject(Zip(FieldNames(VisitedFields(h, fs)), js))
  }

  // ---- A size for the part of a value that is not behind a reference ----

  function Size(v: Value): nat
    decreases v, 0
  {
    match v
    case Interface(Some(e)) => 1 + Size(e)
    case Concrete(_, Array(es, _)) => 1 + SizeAll(es)
    case Concrete(_, Struct(fs)) => 1 + SizeFields(fs)
    case _ => 1
  }

  function SizeAll(vs: seq<Value>): nat
    decreases vs, 1
  {
    if vs == [] then 0 else SizeAll(vs[..|vs| - 1]) + 1 + Size(vs[|vs| - 1])
  }

  function SizeFields(fs: seq<Field>): nat
    decreases fs, 1
  {
    if fs == [] then 0 else SizeFields(fs[..|fs| - 1]) + 2 + Size(fs[|fs| - 1].value)
  }

  lemma {:induction false} VisitedSize(h: Heap, fs: seq<Field>)
    ensures SizeAll(FieldValues(VisitedFields(h, fs))) <= SizeFields(fs)
  {
    if fs != [] {
      var n := |fs| - 1;
      VisitedSize(h, fs[..n]);
      if Visited(h, fs[n]) {
        var vs := FieldValues(VisitedFields(h, fs));
        assert vs[..|vs| - 1] == FieldValues(VisitedFields(h, fs[..n]));
      }
    }
  }

  /** Parts not behind a reference are smaller. */
  lemma KidsSize(h: Heap, v: Value)
    requires Enters(v).None? && !Rejected(h, v)
    ensures SizeAll(Kids(h, v)) <= Size(v)
  {
    match v
    case Interface(Some(e)) =>
      assert [e][..0] == [];
    case Concrete(_, Struct(fs)) => VisitedSize(h, fs);
    case _ =>
  }
}
