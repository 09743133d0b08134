/**
 Workflow step inputs and their wire form. Literals pass through a codec the
 model is generic in.
 */
module WorkflowValues {
  import opened Wrappers
  import opened Text

  /** Literals: encoding may fail; `nothing` is Go's nil. */
  datatype Codec<!L, !P> = Codec(nothing: L, encode: L -> Option<P>, decode: P -> L)

  ghost predicate RoundTrips<L(!new), P>(c: Codec<L, P>) {
    forall x :: c.encode(x).Some? ==> c.decode(c.encode(x).value) == x
  }

  datatype StepSource = StepSource(stepId: string, path: string)

  datatype ObjectField<L> = NilObject | Object(fields: map<string, WorkflowValue<L>>)

  datatype ArrayField<L> = NilArray | Array(items: seq<WorkflowValue<L>>)

  /** A value sets at most one of its fields; blank paths count as not set. */
  datatype WorkflowValue<L> = WorkflowValue(
    literal: L, literalSet: bool, obj: ObjectField<L>, list: ArrayField<L>, template: Option<string>,
    input: string, signal: string, stepOutput: Option<StepSource>, stepInput: Option<StepSource>)

  /** The wire message; `PNil` is a nil message, the options are nil sub-messages. */
  datatype Proto<P> =
    | PNil
    | PUnset
    | PLiteral(literal: Option<P>)
    | PNilObject
    | PObject(fields: map<string, Proto<P>>)
    | PNilArray
    | PArray(items: seq<Proto<P>>)
    | PTemplate(template: Option<string>)
    | PInput(input: Option<string>)
    | PSignal(signal: Option<string>)
    | PStepOutput(output: Option<StepSource>)
    | PStepInput(source: Option<StepSource>)

  function Unset<L, P>(c: Codec<L, P>): WorkflowValue<L> {
    WorkflowValue(c.nothing, false, NilObject, NilArray, None, "", "", None, None)
  }

  predicate IsSet(path: string) {
    TrimSpace(path) != ""
  }

  /** How many kinds a value sets. */
  function SetCount<L>(v: WorkflowValue<L>): nat {
    (if v.literalSet then 1 else 0) + (if v.obj.Object? then 1 else 0) + (if v.list.Array? then 1 else 0)
    + (if v.template.Some? then 1 else 0) + (if IsSet(v.input) then 1 else 0) + (if IsSet(v.signal) then 1 else 0)
    + (if v.stepOutput.Some? then 1 else 0) + (if v.stepInput.Some? then 1 else 0)
  }

  function TextToProto(template: string): Option<string> {
    if template == "" then None else Some(template)
  }

  function TextFromProto(text: Option<string>): string {
    if text.None? then "" else text.value
  }

  // ---- To the wire ----

  /** None when the value, or a value in it, cannot be converted. */
  function ToProto<L, P>(c: Codec<L, P>, v: WorkflowValue<L>): Option<Proto<P>>
    decreases v, 1
  {
    if SetCount(v) == 0 then Some(PNil)
    else if SetCount(v) != 1 then None
    else if v.literalSet then
      var p := c.encode(v.literal);
      if p.None? then None else Some(PLiteral(p))
    else if v.obj.Object? then
      if exists k :: k in v.obj.fields && ToProto(c, v.obj.fields[k]).None? then None
      else Some(PObject(map k | k in v.obj.fields :: ToProto(c, v.obj.fields[k]).value))
    else if v.list.Array? then
      var items := ToProtoAll(c, v.list.items);
      if items.None? then None else Some(PArray(items.value))
    else if v.template.Some? then Some(PTemplate(TextToProto(v.template.value)))
    else if IsSet(v.input) then Some(PInput(Some(v.input)))
    else if IsSet(v.signal) then Some(PSignal(Some(v.signal)))
    else if v.stepOutput.Some? then Some(PStepOutput(v.stepOutput))
    else Some(PStepInput(v.stepInput))
  }

  function ToProtoAll<L, P>(c: Codec<L, P>, vs: seq<WorkflowValue<L>>): (r: Option<seq<Proto<P>>>)
    ensures r.Some? ==> |r.value| == |vs|
    decreases vs, 0
  {
    if vs == [] then Some([])
    else
      var n := |vs| - 1;
      var ps, p := ToProtoAll(c, vs[..n]), ToProto(c, vs[n]);
      if ps.None? || p.None? then None else Some(ps.value + [p.value])
  }

  /** Which of the eight kinds a value sets. */
  function KindsSet<L>(v: WorkflowValue<L>): seq<bool> {
    [v.literalSet, v.obj != NilObject, v.list != NilArray, v.template != None,
     TrimSpace(v.input) != "", TrimSpace(v.signal) != "", v.stepOutput != None, v.stepInput != None]
  }

  function CountTrue(bs: seq<bool>): nat {
    if bs == [] then 0 else CountTrue(bs[..|bs| - 1]) + if bs[|bs| - 1] then 1 else 0
  }

  lemma CountNext(bs: seq<bool>, k: nat)
    requires k < |bs|
    ensures CountTrue(bs[..k + 1]) == CountTrue(bs[..k]) + if bs[k] then 1 else 0
  {
    assert bs[..k + 1][..k] == bs[..k];
  }

  /** Two different positions hold true. */
  ghost predicate TwoTrue(bs: seq<bool>) {
    exists i, j :: 0 <= i < j < |bs| && bs[i] && bs[j]
  }

  lemma {:induction false} CountIsOfPositions(bs: seq<bool>)
    ensures CountTrue(bs) == 0 <==> true !in bs
    ensures CountTrue(bs) > 1 <==> TwoTrue(bs)
  {
    if bs != [] {
      var n := |bs| - 1;
      var front := bs[..n];
      CountIsOfPositions(front);
      assert bs == front + [bs[n]];
      if TwoTrue(front) {
        var i, j :| 0 <= i < j < |front| && front[i] && front[j];
        assert bs[i] && bs[j];
      }
      if bs[n] && true in front {
        var i :| 0 <= i < n && front[i];
        assert bs[i] && bs[n];
      }
      if TwoTrue(bs) {
        var i, j :| 0 <= i < j < |bs| && bs[i] && bs[j];
        assert front[i];
        if j < n { assert front[j]; }
      }
    }
  }

  function One(b: bool): nat {
    if b then 1 else 0
  }

  lemma CountEight(bs: seq<bool>)
    requires |bs| == 8
    ensures CountTrue(bs[..4]) == One(bs[0]) + One(bs[1]) + One(bs[2]) + One(bs[3])
    ensures CountTrue(bs) == CountTrue(bs[..4]) + One(bs[4]) + One(bs[5]) + One(bs[6]) + One(bs[7])
  {
    CountFour(bs[..4]);
    CountNext(bs, 4);
    CountNext(bs, 5);
    CountNext(bs, 6);
    CountNext(bs, 7);
    assert bs[..8] == bs;
  }

  lemma CountFour(bs: seq<bool>)
    requires |bs| == 4
    ensures CountTrue(bs) == One(bs[0]) + One(bs[1]) + One(bs[2]) + One(bs[3])
  {
    CountNext(bs, 0);
    CountNext(bs, 1);
    CountNext(bs, 2);
    CountNext(bs, 3);
    assert bs[..0] == [] && bs[..4] == bs;
  }

  lemma SetCountIsOfKinds<L>(v: WorkflowValue<L>)
    ensures SetCount(v) == CountTrue(KindsSet(v))
  {
    CountEight(KindsSet(v));
  }

  /** Nothing set is no message at all, and two kinds set cannot be converted. */
  lemma KindsDecide<L, P>(c: Codec<L, P>, v: WorkflowValue<L>)
    ensures true !in KindsSet(v) ==> ToProto(c, v) == Some(PNil)
    ensures TwoTrue(KindsSet(v)) ==> ToProto(c, v).None?
    ensures TwoTrue(KindsSet(v)) <==> SetCount(v) > 1
  {
    SetCountIsOfKinds(v);
    CountIsOfPositions(KindsSet(v));
  }

  /** Each kind on its own travels as the message of that kind, with its value. */
  lemma LeavesTravel<L, P>(c: Codec<L, P>, l: L, t: string, path: string, source: StepSource)
    ensures var empty := WorkflowValue(c.nothing, false, NilObject, NilArray, None, "", "", None, None);
            && (c.encode(l).Some? ==>
                  ToProto(c, empty.(literal := l, literalSet := true)) == Some(PLiteral(c.encode(l))))
            && (t != "" ==> ToProto(c, empty.(template := Some(t))) == Some(PTemplate(Some(t))))
            && ToProto(c, empty.(template := Some(""))) == Some(PTemplate(None))
            && (TrimSpace(path) != "" ==> ToProto(c, empty.(input := path)) == Some(PInput(Some(path))))
            && (TrimSpace(path) != "" ==> ToProto(c, empty.(signal := path)) == Some(PSignal(Some(path))))
            && ToProto(c, empty.(stepOutput := Some(source))) == Some(PStepOutput(Some(source)))
            && ToProto(c, empty.(stepInput := Some(source))) == Some(PStepInput(Some(source)))
  {
  }

  /** Objects and arrays travel field by field and item by item. */
  lemma ItemsTravel<L, P>(c: Codec<L, P>, vs: seq<WorkflowValue<L>>, ps: seq<Proto<P>>)
    ensures ToProtoAll(c, vs) == Some(ps) <==>
            |ps| == |vs| && forall i :: 0 <= i < |vs| ==> ToProto(c, vs[i]) == Some(ps[i])
  {
    EachTravels(c, vs);
    var all := ToProtoAll(c, vs);
    if all.Some? && |ps| == |vs| && forall i :: 0 <= i < |vs| ==> ToProto(c, vs[i]) == Some(ps[i]) {
      assert all.value == ps;
    }
  }

  function Converting<L, P>(c: Codec<L, P>): WorkflowValue<L> -> Option<Proto<P>> {
    (v: WorkflowValue<L>) => ToProto(c, v)
  }

  function ConvertingAll<L, P>(c: Codec<L, P>): seq<WorkflowValue<L>> -> Option<seq<Proto<P>>> {
    (vs: seq<WorkflowValue<L>>) => ToProtoAll(c, vs)
  }

  lemma TravelsOneMore<L, P>(c: Codec<L, P>, vs: seq<WorkflowValue<L>>, v: WorkflowValue<L>)
    ensures ToProtoAll(c, vs + [v]) == Snoc(ToProtoAll(c, vs), ToProto(c, v))
  {
    assert (vs + [v])[..|vs|] == vs;
  }

  lemma EachTravels<L, P>(c: Codec<L, P>, vs: seq<WorkflowValue<L>>)
    ensures ToProtoAll(c, vs).Some? <==> forall i :: 0 <= i < |vs| ==> ToProto(c, vs[i]).Some?
    ensures ToProtoAll(c, vs).Some? ==>
              forall i :: 0 <= i < |vs| ==> ToProto(c, vs[i]) == Some(ToProtoAll(c, vs).value[i])
  {
    var f, all := Converting(c), ConvertingAll(c);
    forall k | 0 <= k < |vs| ensures all(vs[..k + 1]) == Snoc(all(vs[..k]), f(vs[k])) {
      assert vs[..k + 1] == vs[..k] + [vs[k]];
      TravelsOneMore(c, vs[..k], vs[k]);
    }
    EachConverts(f, all, vs, |vs|);
    assert vs[..|vs|] == vs;
  }

  // ---- From the wire ----

  function FromProto<L, P>(c: Codec<L, P>, p: Proto<P>): WorkflowValue<L>
    decreases p, 1
  {
    match p
    case PNil => Unset(c)
    case PUnset => Unset(c)
    case PLiteral(l) => Unset(c).(literal := if l.None? then c.nothing else c.decode(l.value), literalSet := true)
    case PNilObject => Unset(c)
    case PObject(fields) =>
      if fields == map[] then Unset(c)
      else Unset(c).(obj := Object(map k | k in fields :: FromProto(c, fields[k])))
    case PNilArray => Unset(c).(list := Array([]))
    case PArray(items) => Unset(c).(list := Array(FromProtoAll(c, items)))
    case PTemplate(t) => Unset(c).(template := Some(TextFromProto(t)))
    case PInput(path) => Unset(c).(input := if path.None? then "" else path.value)
    case PSignal(path) => Unset(c).(signal := if path.None? then "" else path.value)
    case PStepOutput(s) => Unset(c).(stepOutput := Some(if s.None? then StepSource("", "") else s.value))
    case PStepInput(s) => Unset(c).(stepInput := Some(if s.None? then StepSource("", "") else s.value))
  }

  function FromProtoAll<L, P>(c: Codec<L, P>, ps: seq<Proto<P>>): (vs: seq<WorkflowValue<L>>)
    ensures |vs| == |ps|
    decreases ps, 0
  {
    if ps == [] then [] else FromProtoAll(c, ps[..|ps| - 1]) + [FromProto(c, ps[|ps| - 1])]
  }

  /** Messages no conversion produces: absent parts become nil, empty or unset, never an error. */
  lemma NilMessages<L, P>(c: Codec<L, P>)
    ensures var empty := WorkflowValue(c.nothing, false, NilObject, NilArray, None, "", "", None, None);
            && FromProto(c, PNil) == FromProto(c, PUnset) == FromProto(c, PNilObject) == empty
            && FromProto(c, PInput(None)) == FromProto(c, PSignal(None)) == empty
            && FromProto(c, PNilArray) == empty.(list := Array([]))
            && FromProto(c, PLiteral(None)) == empty.(literalSet := true)
            && FromProto(c, PTemplate(None)) == empty.(template := Some(""))
            && FromProto(c, PStepOutput(None)) == empty.(stepOutput := Some(StepSource("", "")))
            && FromProto(c, PStepInput(None)) == empty.(stepInput := Some(StepSource("", "")))
  {
  }

  /** An object without fields comes back as nothing at all, an array without items as an empty array. */
  lemma EmptyMessages<L, P>(c: Codec<L, P>)
    ensures FromProto(c, PObject(map[])) == Unset(c)
    ensures FromProto(c, PArray([])) == Unset(c).(list := Array([]))
  {
  }

  // ---- The round trip ----

  /** What survives the round trip: at every node only the kind that was set, and no empty object. */
  function Canonical<L, P>(c: Codec<L, P>, v: WorkflowValue<L>): WorkflowValue<L>
    decreases v, 1
  {
    if v.literalSet then Unset(c).(literal := v.literal, literalSet := true)
    else if v.obj.Object? then
      if v.obj.fields == map[] then Unset(c)
      else Unset(c).(obj := Object(map k | k in v.obj.fields :: Canonical(c, v.obj.fields[k])))
    else if v.list.Array? then Unset(c).(list := Array(CanonicalAll(c, v.list.items)))
    else Unset(c).(template := v.template,
                   input := if IsSet(v.input) then v.input else "",
                   signal := if IsSet(v.signal) then v.signal else "",
                   stepOutput := v.stepOutput, stepInput := v.stepInput)
  }

  function CanonicalAll<L, P>(c: Codec<L, P>, vs: seq<WorkflowValue<L>>): (r: seq<WorkflowValue<L>>)
    ensures |r| == |vs|
    decreases vs, 0
  {
    if vs == [] then [] else CanonicalAll(c, vs[..|vs| - 1]) + [Canonical(c, vs[|vs| - 1])]
  }

  lemma LeafRoundTrip<L(!new), P>(c: Codec<L, P>, v: WorkflowValue<L>)
    requires RoundTrips(c) && ToProto(c, v).Some? && !v.obj.Object? && !v.list.Array?
    ensures FromProto(c, ToProto(c, v).value) == Canonical(c, v)
  {
    if v.literalSet {
      assert c.decode(c.encode(v.literal).value) == v.literal;
    }
  }

  lemma ObjectToProto<L, P>(c: Codec<L, P>, v: WorkflowValue<L>)
    requires ToProto(c, v).Some? && v.obj.Object?
    ensures SetCount(v) == 1 && !v.literalSet && ToProto(c, v).value.PObject?
    ensures var fields := ToProto(c, v).value.fields;
            fields.Keys == v.obj.fields.Keys
            && forall k :: k in fields ==> ToProto(c, v.obj.fields[k]) == Some(fields[k])
  {
  }

  lemma ObjectFromProto<L, P>(c: Codec<L, P>, fields: map<string, Proto<P>>, v: WorkflowValue<L>)
    requires v.obj.Object? && !v.literalSet && fields.Keys == v.obj.fields.Keys
    requires forall k :: k in fields ==> FromProto(c, fields[k]) == Canonical(c, v.obj.fields[k])
    ensures FromProto(c, PObject(fields)) == Canonical(c, v)
  {
    assert (map k | k in fields :: FromProto(c, fields[k]))
        == (map k | k in v.obj.fields :: Canonical(c, v.obj.fields[k]));
    assert fields == map[] <==> v.obj.fields == map[] by {
      assert fields == map[] <==> fields.Keys == {};
      assert v.obj.fields == map[] <==> v.obj.fields.Keys == {};
    }
  }

  /** Converting a value to the wire and back yields its canonical form. */
  lemma {:induction false} RoundTrip<L(!new), P>(c: Codec<L, P>, v: WorkflowValue<L>)
    requires RoundTrips(c) && ToProto(c, v).Some?
    ensures FromProto(c, ToProto(c, v).value) == Canonical(c, v)
    decreases v, 1
  {
    if v.obj.Object? {
      ObjectToProto(c, v);
      var fields := ToProto(c, v).value.fields;
      forall k | k in fields ensures FromProto(c, fields[k]) == Canonical(c, v.obj.fields[k]) {
        RoundTrip(c, v.obj.fields[k]);
      }
      ObjectFromProto(c, fields, v);
    } else if v.list.Array? {
      assert SetCount(v) == 1 && !v.literalSet;
      RoundTripAll(c, v.list.items);
    } else {
      LeafRoundTrip(c, v);
    }
  }

  lemma {:induction false} RoundTripAll<L(!new), P>(c: Codec<L, P>, vs: seq<WorkflowValue<L>>)
    requires RoundTrips(c) && ToProtoAll(c, vs).Some?
    ensures FromProtoAll(c, ToProtoAll(c, vs).value) == CanonicalAll(c, vs)
    decreases vs, 0
  {
    if vs != [] {
      var n := |vs| - 1;
      RoundTripAll(c, vs[..n]);
      RoundTrip(c, vs[n]);
      var ps := ToProtoAll(c, vs).value;
      assert ps[..n] == ToProtoAll(c, vs[..n]).value;
    }
  }

  // ---- Nodes at any depth ----

  datatype Step = Member(name: string) | Item(index: nat)

  function Child<L>(v: WorkflowValue<L>, s: Step): Option<WorkflowValue<L>> {
    match s
    case Member(k) => if v.obj.Object? && k in v.obj.fields then Some(v.obj.fields[k]) else None
    case Item(i) => if v.list.Array? && i < |v.list.items| then Some(v.list.items[i]) else None
  }

  function NodeAt<L>(v: WorkflowValue<L>, path: seq<Step>): Option<WorkflowValue<L>>
    decreases |path|
  {
    if path == [] then Some(v)
    else
      var child := Child(v, path[0]);
      if child.None? then None else NodeAt(child.value, path[1..])
  }

  lemma NodeBelow<L>(v: WorkflowValue<L>, s: Step, path: seq<Step>)
    requires Child(v, s).Some?
    ensures NodeAt(v, [s] + path) == NodeAt(Child(v, s).value, path)
  {
    assert ([s] + path)[1..] == path;
  }

  /** A node no conversion accepts: more than one kind, or a literal that does not encode. */
  predicate BadNode<L, P>(c: Codec<L, P>, v: WorkflowValue<L>) {
    SetCount(v) > 1 || (v.literalSet && c.encode(v.literal).None?)
  }

  /** The same read off the value. */
  lemma BadNodeExactly<L, P>(c: Codec<L, P>, v: WorkflowValue<L>)
    ensures BadNode(c, v) <==>
            || TwoTrue(KindsSet(v))
            || (v.literalSet && c.encode(v.literal).None?)
  {
    KindsDecide(c, v);
  }

  lemma {:induction false} AllConvert<L, P>(c: Codec<L, P>, vs: seq<WorkflowValue<L>>)
    ensures ToProtoAll(c, vs).Some? <==> forall i :: 0 <= i < |vs| ==> ToProto(c, vs[i]).Some?
  {
    if vs != [] {
      AllConvert(c, vs[..|vs| - 1]);
      assert forall i :: 0 <= i < |vs| - 1 ==> vs[..|vs| - 1][i] == vs[i];
    }
  }

  lemma ChildFails<L, P>(c: Codec<L, P>, v: WorkflowValue<L>, s: Step)
    requires Child(v, s).Some? && ToProto(c, Child(v, s).value).None?
    ensures ToProto(c, v).None?
  {
    if v.list.Array? { AllConvert(c, v.list.items); }
  }

  lemma {:induction false} BadNodeFails<L, P>(c: Codec<L, P>, v: WorkflowValue<L>, path: seq<Step>)
    requires NodeAt(v, path).Some? && BadNode(c, NodeAt(v, path).value)
    ensures ToProto(c, v).None?
    decreases |path|
  {
    if path != [] {
      BadNodeFails(c, Child(v, path[0]).value, path[1..]);
      ChildFails(c, v, path[0]);
    }
  }

  lemma {:induction false} FindBadNode<L, P>(c: Codec<L, P>, v: WorkflowValue<L>) returns (path: seq<Step>)
    requires ToProto(c, v).None?
    ensures NodeAt(v, path).Some? && BadNode(c, NodeAt(v, path).value)
    decreases v
  {
    if BadNode(c, v) {
      path := [];
    } else if v.obj.Object? {
      var k :| k in v.obj.fields && ToProto(c, v.obj.fields[k]).None?;
      var rest := FindBadNode(c, v.obj.fields[k]);
      NodeBelow(v, Member(k), rest);
      path := [Member(k)] + rest;
    } else {
      AllConvert(c, v.list.items);
      var i :| 0 <= i < |v.list.items| && ToProto(c, v.list.items[i]).None?;
      var rest := FindBadNode(c, v.list.items[i]);
      NodeBelow(v, Item(i), rest);
      path := [Item(i)] + rest;
    }
  }

  /** Conversion fails exactly when some node, at any depth, sets two kinds or holds a literal that does not encode. */
  lemma FailsExactly<L(!new), P>(c: Codec<L, P>, v: WorkflowValue<L>)
    ensures ToProto(c, v).None? <==> exists path :: NodeAt(v, path).Some? && BadNode(c, NodeAt(v, path).value)
  {
    if ToProto(c, v).None? {
      var path := FindBadNode(c, v);
    }
    if path :| NodeAt(v, path).Some? && BadNode(c, NodeAt(v, path).value) {
      BadNodeFails(c, v, path);
    }
  }

  // ---- What the round trip changes ----

  /** A node the round trip leaves alone: no empty object, no blank path, no literal that is not set. */
  ghost predicate PlainNode<L, P>(c: Codec<L, P>, v: WorkflowValue<L>) {
    && (v.obj.Object? ==> v.obj.fields != map[])
    && (v.input != "" ==> IsSet(v.input))
    && (v.signal != "" ==> IsSet(v.signal))
    && (!v.literalSet ==> v.literal == c.nothing)
  }

  ghost predicate AllPlain<L, P>(c: Codec<L, P>, v: WorkflowValue<L>) {
    forall path :: NodeAt(v, path).Some? ==> PlainNode(c, NodeAt(v, path).value)
  }

  lemma PlainHere<L, P>(c: Codec<L, P>, v: WorkflowValue<L>)
    requires AllPlain(c, v)
    ensures PlainNode(c, v)
  {
    assert NodeAt(v, []) == Some(v);
  }

  lemma PlainBelow<L, P>(c: Codec<L, P>, v: WorkflowValue<L>, s: Step)
    requires AllPlain(c, v) && Child(v, s).Some?
    ensures AllPlain(c, Child(v, s).value)
  {
    forall path | NodeAt(Child(v, s).value, path).Some? ensures PlainNode(c, NodeAt(Child(v, s).value, path).value) {
      NodeBelow(v, s, path);
    }
  }

  lemma {:induction false} CanonicalEach<L, P>(c: Codec<L, P>, vs: seq<WorkflowValue<L>>)
    ensures forall i :: 0 <= i < |vs| ==> CanonicalAll(c, vs)[i] == Canonical(c, vs[i])
  {
    if vs != [] { CanonicalEach(c, vs[..|vs| - 1]); }
  }

  lemma PlainLeaf<L, P>(c: Codec<L, P>, v: WorkflowValue<L>)
    requires PlainNode(c, v) && SetCount(v) <= 1 && !v.obj.Object? && !v.list.Array?
    ensures Canonical(c, v) == v
  {
  }

  lemma PlainObject<L, P>(c: Codec<L, P>, v: WorkflowValue<L>)
    requires PlainNode(c, v) && SetCount(v) == 1 && v.obj.Object?
    requires forall k :: k in v.obj.fields ==> Canonical(c, v.obj.fields[k]) == v.obj.fields[k]
    ensures Canonical(c, v) == v
  {
    assert (map k | k in v.obj.fields :: Canonical(c, v.obj.fields[k])) == v.obj.fields;
  }

  lemma PlainArray<L, P>(c: Codec<L, P>, v: WorkflowValue<L>)
    requires PlainNode(c, v) && SetCount(v) == 1 && v.list.Array?
    requires forall i :: 0 <= i < |v.list.items| ==> Canonical(c, v.list.items[i]) == v.list.items[i]
    ensures Canonical(c, v) == v
  {
    CanonicalEach(c, v.list.items);
    assert CanonicalAll(c, v.list.items) == v.list.items;
  }

  lemma {:induction false} PlainIsCanonical<L, P>(c: Codec<L, P>, v: WorkflowValue<L>)
    requires AllPlain(c, v) && ToProto(c, v).Some?
    ensures Canonical(c, v) == v
    decreases v
  {
    PlainHere(c, v);
    if v.obj.Object? {
      ObjectToProto(c, v);
      forall k | k in v.obj.fields ensures Canonical(c, v.obj.fields[k]) == v.obj.fields[k] {
        PlainBelow(c, v, Member(k));
        PlainIsCanonical(c, v.obj.fields[k]);
      }
      PlainObject(c, v);
    } else if v.list.Array? {
      AllConvert(c, v.list.items);
      forall i | 0 <= i < |v.list.items| ensures Canonical(c, v.list.items[i]) == v.list.items[i] {
        PlainBelow(c, v, Item(i));
        PlainIsCanonical(c, v.list.items[i]);
      }
      PlainArray(c, v);
    } else {
      PlainLeaf(c, v);
    }
  }

  lemma {:induction false} CanonicalIsPlain<L, P>(c: Codec<L, P>, v: WorkflowValue<L>, path: seq<Step>)
    requires Canonical(c, v) == v && NodeAt(v, path).Some?
    ensures PlainNode(c, NodeAt(v, path).value)
    decreases |path|
  {
    if path != [] {
      var child := Child(v, path[0]).value;
      if path[0].Item? { CanonicalEach(c, v.list.items); }
      assert Canonical(c, child) == child;
      CanonicalIsPlain(c, child, path[1..]);
    }
  }

  /**
   The round trip returns the very same value exactly when no node, at any
   depth, is an empty object, a blank path or a literal that is not set.
   */
  lemma PreservedExactly<L(!new), P>(c: Codec<L, P>, v: WorkflowValue<L>)
    requires RoundTrips(c) && ToProto(c, v).Some?
    ensures FromProto(c, ToProto(c, v).value) == v <==> AllPlain(c, v)
  {
    RoundTrip(c, v);
    if AllPlain(c, v) { PlainIsCanonical(c, v); }
    if Canonical(c, v) == v {
      forall path | NodeAt(v, path).Some? ensures PlainNode(c, NodeAt(v, path).value) { CanonicalIsPlain(c, v, path); }
    }
  }

  // ---- The conversions as they run ----

  /** A failed conversion names the node that no conversion accepts. */
  ghost predicate Converts<L, P>(c: Codec<L, P>, v: WorkflowValue<L>, r: Result<Proto<P>, seq<Step>>) {
    match r
    case Success(p) => ToProto(c, v) == Some(p)
    case Failure(path) => NodeAt(v, path).Some? && BadNode(c, NodeAt(v, path).value)
  }

  method CountKinds<L>(v: WorkflowValue<L>) returns (count: nat)
    ensures count == SetCount(v)
  {
    count := 0;
    if v.literalSet { count := count + 1; }
    if v.obj.Object? { count := count + 1; }
    if v.list.Array? { count := count + 1; }
    if v.template.Some? { count := count + 1; }
    if TrimSpace(v.input) != "" { count := count + 1; }
    if TrimSpace(v.signal) != "" { count := count + 1; }
    if v.stepOutput.Some? { count := count + 1; }
    if v.stepInput.Some? { count := count + 1; }
  }

  method ValueToProto<L, P>(c: Codec<L, P>, v: WorkflowValue<L>) returns (r: Result<Proto<P>, seq<Step>>)
    ensures Converts(c, v, r)
    decreases v, 2
  {
    var count := CountKinds(v);
    if count == 0 {
      return Success(PNil);
    }
    if count != 1 {
      return Failure([]);
    }
    if v.literalSet {
      var literal := c.encode(v.literal);
      return if literal.None? then Failure([]) else Success(PLiteral(literal));
    }
    if v.obj.Object? {
      r := ValueMapToProto(c, v);
    } else if v.list.Array? {
      r := ValueListToProto(c, v);
    } else if v.template.Some? {
      r := Success(PTemplate(TextToProto(v.template.value)));
    } else if TrimSpace(v.input) != "" {
      r := Success(PInput(Some(v.input)));
    } else if TrimSpace(v.signal) != "" {
      r := Success(PSignal(Some(v.signal)));
    } else if v.stepOutput.Some? {
      r := Success(PStepOutput(v.stepOutput));
    } else {
      r := Success(PStepInput(v.stepInput));
    }
  }

  /** The fields of an object not in `rest` are in `out`, converted. */
  ghost predicate FieldsConverted<L, P>(
    c: Codec<L, P>, fields: map<string, WorkflowValue<L>>, rest: set<string>, out: map<string, Proto<P>>)
  {
    out.Keys == fields.Keys - rest && forall k :: k in out ==> k in fields && ToProto(c, fields[k]) == Some(out[k])
  }

  lemma ConvertField<L, P>(
    c: Codec<L, P>, fields: map<string, WorkflowValue<L>>, rest: set<string>, out: map<string, Proto<P>>,
    k: string, p: Proto<P>)
    requires FieldsConverted(c, fields, rest, out) && k in rest && rest <= fields.Keys
    requires ToProto(c, fields[k]) == Some(p)
    ensures FieldsConverted(c, fields, rest - {k}, out[k := p])
  {
  }

  lemma ObjectConverted<L, P>(c: Codec<L, P>, v: WorkflowValue<L>, out: map<string, Proto<P>>)
    requires v.obj.Object? && SetCount(v) == 1 && FieldsConverted(c, v.obj.fields, {}, out)
    ensures ToProto(c, v) == Some(PObject(out))
  {
    assert forall k :: k in v.obj.fields ==> k in out;
    assert ToProto(c, v).Some?;
    ObjectToProto(c, v);
    assert ToProto(c, v).value.fields == out;
  }

  /** The fields of an object, visited in an arbitrary order. */
  method ValueMapToProto<L, P>(c: Codec<L, P>, v: WorkflowValue<L>) returns (r: Result<Proto<P>, seq<Step>>)
    requires v.obj.Object? && SetCount(v) == 1
    ensures Converts(c, v, r)
    decreases v, 1
  {
    var fields := v.obj.fields;
    var out: map<string, Proto<P>> := map[];
    var rest := fields.Keys;
    while rest != {}
      invariant rest <= fields.Keys && FieldsConverted(c, fields, rest, out)
    {
      var k :| k in rest;
      var converted := ValueToProto(c, fields[k]);
      if converted.Failure? {
        NodeBelow(v, Member(k), converted.error);
        return Failure([Member(k)] + converted.error);
      }
      ConvertField(c, fields, rest, out, k, converted.value);
      out := out[k := converted.value];
      rest := rest - {k};
    }
    ObjectConverted(c, v, out);
    r := Success(PObject(out));
  }

  lemma ConvertItem<L, P>(c: Codec<L, P>, items: seq<WorkflowValue<L>>, i: nat, out: seq<Proto<P>>, p: Proto<P>)
    requires i < |items| && ToProtoAll(c, items[..i]) == Some(out) && ToProto(c, items[i]) == Some(p)
    ensures ToProtoAll(c, items[..i + 1]) == Some(out + [p])
  {
    assert items[..i + 1][..i] == items[..i];
  }

  lemma ListConverted<L, P>(c: Codec<L, P>, v: WorkflowValue<L>, out: seq<Proto<P>>)
    requires v.list.Array? && SetCount(v) == 1 && ToProtoAll(c, v.list.items) == Some(out)
    ensures ToProto(c, v) == Some(PArray(out))
  {
  }

  method ValueListToProto<L, P>(c: Codec<L, P>, v: WorkflowValue<L>) returns (r: Result<Proto<P>, seq<Step>>)
    requires v.list.Array? && SetCount(v) == 1
    ensures Converts(c, v, r)
    decreases v, 1
  {
    var items := v.list.items;
    var out: seq<Proto<P>> := [];
    for i := 0 to |items|
      invariant ToProtoAll(c, items[..i]) == Some(out)
    {
      var converted := ValueToProto(c, items[i]);
      if converted.Failure? {
        NodeBelow(v, Item(i), converted.error);
        return Failure([Item(i)] + converted.error);
      }
      ConvertItem(c, items, i, out, converted.value);
      out := out + [converted.value];
    }
    assert items[..|items|] == items;
    ListConverted(c, v, out);
    r := Success(PArray(out));
  }

  method LeafFromProto<L, P>(c: Codec<L, P>, p: Proto<P>) returns (v: WorkflowValue<L>)
    requires !p.PObject? && !p.PArray?
    ensures v == FromProto(c, p)
  {
    v := Unset(c);
    match p
    case PLiteral(literal) =>
      v := v.(literalSet := true);
      if literal.Some? { v := v.(literal := c.decode(literal.value)); }
    case PNilArray => v := v.(list := Array([]));
    case PTemplate(text) => v := v.(template := Some(TextFromProto(text)));
    case PInput(path) => if path.Some? { v := v.(input := path.value); }
    case PSignal(path) => if path.Some? { v := v.(signal := path.value); }
    case PStepOutput(source) =>
      v := v.(stepOutput := Some(StepSource("", "")));
      if source.Some? { v := v.(stepOutput := source); }
    case PStepInput(source) =>
      v := v.(stepInput := Some(StepSource("", "")));
      if source.Some? { v := v.(stepInput := source); }
    case _ =>
  }

  method ValueFromProto<L, P>(c: Codec<L, P>, p: Proto<P>) returns (v: WorkflowValue<L>)
    ensures v == FromProto(c, p)
    decreases p, 1
  {
    if p.PObject? {
      if p.fields == map[] {
        return Unset(c);
      }
      var out: map<string, WorkflowValue<L>> := map[];
      var rest := p.fields.Keys;
      while rest != {}
        invariant rest <= p.fields.Keys && out.Keys == p.fields.Keys - rest
        invariant forall k :: k in out ==> out[k] == FromProto(c, p.fields[k])
      {
        var k :| k in rest;
        var field := ValueFromProto(c, p.fields[k]);
        out := out[k := field];
        rest := rest - {k};
      }
      assert (map k | k in p.fields :: FromProto(c, p.fields[k])) == out;
      v := Unset(c).(obj := Object(out));
    } else if p.PArray? {
      var out: seq<WorkflowValue<L>> := [];
      for i := 0 to |p.items|
        invariant out == FromProtoAll(c, p.items[..i])
      {
        assert p.items[..i + 1][..i] == p.items[..i];
        var item := ValueFromProto(c, p.items[i]);
        out := out + [item];
      }
      assert p.items[..|p.items|] == p.items;
      v := Unset(c).(list := Array(out));
    } else {
      v := LeafFromProto(c, p);
    }
  }
}
