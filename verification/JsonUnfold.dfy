/** Unfolding with cycle detection, compared with plain unfolding to a depth and with the paths through a value. */
module JsonUnfold {
  import opened Wrappers
  import opened JsonValues

  function Addresses(h: Heap): set<nat> {
    set r | r in h :: r.address
  }

  /** The addresses active inside a value. */
  function Inner(v: Value, active: set<nat>): set<nat> {
    if Enters(v).Some? then active + {Enters(v).value.address} else active
  }

  /**
   The unfolding that gives up on an address met again below itself. It ends on
   every heap: entering a reference uses up an address, and between references
   the value shrinks.
   */
  ghost function Unfold(h: Heap, v: Value, active: set<nat>): (r: Option<Json>)
    decreases Addresses(h) - active, Size(v), 1
  {
    if Rejected(h, v) then None
    else if Enters(v).Some? && Enters(v).value.address in active then None
    else
      assert Enters(v).Some? ==> Enters(v).value in h;
      assert Enters(v).Some? ==> Addresses(h) - Inner(v, active) < Addresses(h) - active;
      assert Enters(v).None? ==> SizeAll(Kids(h, v)) <= Size(v) by { if Enters(v).None? { KidsSize(h, v); } }
      var js := UnfoldAll(h, Kids(h, v), Inner(v, active));
      if js.None? then None else Some(Build(h, v, js.value))
  }

  ghost function UnfoldAll(h: Heap, vs: seq<Value>, active: set<nat>): (r: Option<seq<Json>>)
    ensures r.Some? ==> |r.value| == |vs|
    decreases Addresses(h) - active, SizeAll(vs), 0
  {
    if vs == [] then Some([])
    else
      var n := |vs| - 1;
      var js := UnfoldAll(h, vs[..n], active);
      if js.None? then None
      else
        var j := Unfold(h, vs[n], active);
        if j.None? then None else Some(js.value + [j.value])
  }

  ghost function Unfolding(h: Heap, active: set<nat>): Value -> Option<Json> {
    (v: Value) => Unfold(h, v, active)
  }

  ghost function UnfoldingAll(h: Heap, active: set<nat>): seq<Value> -> Option<seq<Json>> {
    (vs: seq<Value>) => UnfoldAll(h, vs, active)
  }

  lemma UnfoldOneMore(h: Heap, vs: seq<Value>, v: Value, active: set<nat>)
    ensures UnfoldAll(h, vs + [v], active) == Snoc(UnfoldAll(h, vs, active), Unfold(h, v, active))
  {
    assert (vs + [v])[..|vs|] == vs;
  }

  lemma UnfoldAllEach(h: Heap, vs: seq<Value>, active: set<nat>)
    ensures UnfoldAll(h, vs, active).Some? <==> forall i :: 0 <= i < |vs| ==> Unfold(h, vs[i], active).Some?
    ensures UnfoldAll(h, vs, active).Some? ==>
              forall i :: 0 <= i < |vs| ==> Unfold(h, vs[i], active) == Some(UnfoldAll(h, vs, active).value[i])
  {
    var f, all := Unfolding(h, active), UnfoldingAll(h, active);
    forall k | 0 <= k < |vs| ensures all(vs[..k + 1]) == Snoc(all(vs[..k]), f(vs[k])) {
      assert vs[..k + 1] == vs[..k] + [vs[k]];
      UnfoldOneMore(h, vs[..k], vs[k], active);
    }
    EachConverts(f, all, vs, |vs|);
    assert vs[..|vs|] == vs;
  }

  // ---- Plain unfolding ----

  /** The tree of a value, if it is complete within `depth` levels. Nothing watches for cycles. */
  ghost function Tree(h: Heap, v: Value, depth: nat): (r: Option<Json>)
    decreases depth, 0
  {
    if depth == 0 || Rejected(h, v) then None
    else
      var js := TreeAll(h, Kids(h, v), depth - 1);
      if js.None? then None else Some(Build(h, v, js.value))
  }

  ghost function TreeAll(h: Heap, vs: seq<Value>, depth: nat): (r: Option<seq<Json>>)
    ensures r.Some? ==> |r.value| == |vs|
    decreases depth, |vs| + 1
  {
    if vs == [] then Some([])
    else
      var n := |vs| - 1;
      var js, j := TreeAll(h, vs[..n], depth), Tree(h, vs[n], depth);
      if js.None? || j.None? then None else Some(js.value + [j.value])
  }

  lemma {:induction false} TreeDeeper(h: Heap, v: Value, depth: nat, deeper: nat)
    requires depth <= deeper && Tree(h, v, depth).Some?
    ensures Tree(h, v, deeper) == Tree(h, v, depth)
    decreases depth, 0
  {
    TreeAllDeeper(h, Kids(h, v), depth - 1, deeper - 1);
  }

  lemma {:induction false} TreeAllDeeper(h: Heap, vs: seq<Value>, depth: nat, deeper: nat)
    requires depth <= deeper && TreeAll(h, vs, depth).Some?
    ensures TreeAll(h, vs, deeper) == TreeAll(h, vs, depth)
    decreases depth, |vs| + 1
  {
    if vs != [] {
      TreeAllDeeper(h, vs[..|vs| - 1], depth, deeper);
      TreeDeeper(h, vs[|vs| - 1], depth, deeper);
    }
  }

  /** What the detecting unfolding returns is the tree. */
  lemma {:induction false} UnfoldIsTree(h: Heap, v: Value, active: set<nat>) returns (depth: nat)
    requires Unfold(h, v, active).Some?
    ensures Tree(h, v, depth) == Unfold(h, v, active)
    decreases Addresses(h) - active, Size(v), 1
  {
    assert Enters(v).Some? ==> Enters(v).value in h;
    if Enters(v).None? { KidsSize(h, v); }
    var d := UnfoldAllIsTree(h, Kids(h, v), Inner(v, active));
    depth := d + 1;
  }

  lemma {:induction false} UnfoldAllIsTree(h: Heap, vs: seq<Value>, active: set<nat>) returns (depth: nat)
    requires UnfoldAll(h, vs, active).Some?
    ensures TreeAll(h, vs, depth) == UnfoldAll(h, vs, active)
    decreases Addresses(h) - active, SizeAll(vs), 0
  {
    if vs == [] {
      depth := 0;
    } else {
      var n := |vs| - 1;
      var a := UnfoldAllIsTree(h, vs[..n], active);
      var b := UnfoldIsTree(h, vs[n], active);
      depth := if a < b then b else a;
      TreeAllDeeper(h, vs[..n], a, depth);
      TreeDeeper(h, vs[n], b, depth);
    }
  }

  // ---- Paths ----

  /** A path names a part of a value by the position to descend into at each level. */
  ghost predicate IsPath(h: Heap, v: Value, w: seq<nat>)
    decreases |w|
  {
    w == [] || (w[0] < |Kids(h, v)| && IsPath(h, Kids(h, v)[w[0]], w[1..]))
  }

  /** The addresses a path enters, from the value itself down. */
  ghost function Trail(h: Heap, v: Value, w: seq<nat>): seq<nat>
    requires IsPath(h, v, w)
    decreases |w|
  {
    (if Enters(v).Some? then [Enters(v).value.address] else [])
    + (if w == [] then [] else Trail(h, Kids(h, v)[w[0]], w[1..]))
  }

  /** No address twice, and none of the active ones. */
  ghost predicate NoRepeat(trail: seq<nat>, active: set<nat>) {
    && (forall i, j :: 0 <= i < j < |trail| ==> trail[i] != trail[j])
    && (forall i :: 0 <= i < |trail| ==> trail[i] !in active)
  }

  /** No path through the value enters an address twice. */
  ghost predicate Acyclic(h: Heap, v: Value, active: set<nat>) {
    forall w :: IsPath(h, v, w) ==> NoRepeat(Trail(h, v, w), active)
  }

  lemma KidUnfolds(h: Heap, v: Value, active: set<nat>, i: nat)
    requires Unfold(h, v, active).Some? && i < |Kids(h, v)|
    ensures Unfold(h, Kids(h, v)[i], Inner(v, active)).Some?
    ensures Enters(v).Some? ==> Enters(v).value.address !in active
  {
    UnfoldAllEach(h, Kids(h, v), Inner(v, active));
  }

  lemma {:induction false} UnfoldedPathsDoNotRepeat(h: Heap, v: Value, active: set<nat>, w: seq<nat>)
    requires Unfold(h, v, active).Some? && IsPath(h, v, w)
    ensures NoRepeat(Trail(h, v, w), active)
    decreases |w|
  {
    if w != [] {
      var kid := Kids(h, v)[w[0]];
      KidUnfolds(h, v, active, w[0]);
      UnfoldedPathsDoNotRepeat(h, kid, Inner(v, active), w[1..]);
    }
  }

  lemma TrailHere(h: Heap, v: Value, active: set<nat>)
    requires Acyclic(h, v, active) && Enters(v).Some?
    ensures Enters(v).value.address !in active
  {
    assert IsPath(h, v, []);
    assert Trail(h, v, [])[0] == Enters(v).value.address;
  }

  lemma NoRepeatTail(whole: seq<nat>, head: seq<nat>, below: seq<nat>, active: set<nat>)
    requires whole == head + below && NoRepeat(whole, active)
    ensures NoRepeat(below, active + set a | a in head)
  {
    forall i | 0 <= i < |below| ensures below[i] !in active && below[i] !in head {
      assert whole[|head| + i] == below[i];
      assert forall k :: 0 <= k < |head| ==> head[k] == whole[k];
    }
    forall i, j | 0 <= i < j < |below| ensures below[i] != below[j] {
      assert whole[|head| + i] == below[i] && whole[|head| + j] == below[j];
    }
  }

  lemma AcyclicBelow(h: Heap, v: Value, active: set<nat>, i: nat)
    requires Acyclic(h, v, active) && i < |Kids(h, v)|
    ensures Acyclic(h, Kids(h, v)[i], Inner(v, active))
  {
    var kid := Kids(h, v)[i];
    var head := if Enters(v).Some? then [Enters(v).value.address] else [];
    assert Inner(v, active) == active + set a | a in head;
    forall w | IsPath(h, kid, w) ensures NoRepeat(Trail(h, kid, w), Inner(v, active)) {
      assert ([i] + w)[1..] == w;
      assert IsPath(h, v, [i] + w);
      NoRepeatTail(Trail(h, v, [i] + w), head, Trail(h, kid, w), active);
    }
  }

  /** A value that unfolds and repeats no address is accepted. */
  lemma {:induction false} TreeIsUnfolded(h: Heap, v: Value, active: set<nat>, depth: nat)
    requires Tree(h, v, depth).Some? && Acyclic(h, v, active)
    ensures Unfold(h, v, active).Some?
    decreases depth, 0
  {
    if Enters(v).Some? { TrailHere(h, v, active); }
    forall i | 0 <= i < |Kids(h, v)| ensures Acyclic(h, Kids(h, v)[i], Inner(v, active)) {
      AcyclicBelow(h, v, active, i);
    }
    TreesAreUnfolded(h, Kids(h, v), Inner(v, active), depth - 1);
  }

  lemma {:induction false} TreesAreUnfolded(h: Heap, vs: seq<Value>, active: set<nat>, depth: nat)
    requires TreeAll(h, vs, depth).Some? && forall i :: 0 <= i < |vs| ==> Acyclic(h, vs[i], active)
    ensures UnfoldAll(h, vs, active).Some?
    decreases depth, |vs| + 1
  {
    if vs != [] {
      var n := |vs| - 1;
      assert forall i :: 0 <= i < n ==> vs[..n][i] == vs[i];
      TreesAreUnfolded(h, vs[..n], active, depth);
      TreeIsUnfolded(h, vs[n], active, depth);
    }
  }

  /**
   Exactly when a value is accepted: it has a finite tree and no path through it
   enters an address twice. What is returned then is that tree.
   */
  lemma AcceptedExactly(h: Heap, v: Value)
    ensures Unfold(h, v, {}).Some? <==> (exists depth :: Tree(h, v, depth).Some?) && Acyclic(h, v, {})
    ensures forall depth :: Tree(h, v, depth).Some? && Unfold(h, v, {}).Some? ==> Tree(h, v, depth) == Unfold(h, v, {})
  {
    if Unfold(h, v, {}).Some? {
      var d := UnfoldIsTree(h, v, {});
      assert Tree(h, v, d).Some?;
      forall w | IsPath(h, v, w) ensures NoRepeat(Trail(h, v, w), {}) { UnfoldedPathsDoNotRepeat(h, v, {}, w); }
      forall depth | Tree(h, v, depth).Some? ensures Tree(h, v, depth) == Unfold(h, v, {}) {
        if depth <= d { TreeDeeper(h, v, depth, d); } else { TreeDeeper(h, v, d, depth); }
      }
    }
    if (exists depth :: Tree(h, v, depth).Some?) && Acyclic(h, v, {}) {
      var depth :| Tree(h, v, depth).Some?;
      TreeIsUnfolded(h, v, {}, depth);
    }
  }

  // ---- Without aliasing, accepted means finite ----

  /** An address determines what it refers to: no pointer into the middle of another object. */
  ghost predicate NoAliasing(h: Heap) {
    forall r, r' :: r in h && r' in h && r.address == r'.address ==> r == r'
  }

  /** The part a path leads to. */
  ghost function At(h: Heap, v: Value, w: seq<nat>): Value
    requires IsPath(h, v, w)
    decreases |w|
  {
    if w == [] then v else At(h, Kids(h, v)[w[0]], w[1..])
  }

  lemma {:induction false} TreeAllEach(h: Heap, vs: seq<Value>, depth: nat, i: nat)
    requires TreeAll(h, vs, depth).Some? && i < |vs|
    ensures Tree(h, vs[i], depth).Some?
    decreases |vs|
  {
    var n := |vs| - 1;
    if i < n { TreeAllEach(h, vs[..n], depth, i); }
  }

  lemma KidTree(h: Heap, v: Value, depth: nat, i: nat)
    requires Tree(h, v, depth).Some? && i < |Kids(h, v)|
    ensures depth > 0 && Tree(h, Kids(h, v)[i], depth - 1).Some?
  {
    TreeAllEach(h, Kids(h, v), depth - 1, i);
  }

  lemma {:induction false} TreeBelow(h: Heap, v: Value, depth: nat, w: seq<nat>)
    requires Tree(h, v, depth).Some? && IsPath(h, v, w)
    ensures |w| < depth && Tree(h, At(h, v, w), depth - |w|).Some?
    decreases |w|
  {
    if w != [] {
      var kid := Kids(h, v)[w[0]];
      KidTree(h, v, depth, w[0]);
      TreeBelow(h, kid, depth - 1, w[1..]);
    }
  }

  lemma SameRefSameKids(h: Heap, v: Value, u: Value)
    requires !Rejected(h, v) && !Rejected(h, u) && Enters(v).Some? && Enters(v) == Enters(u)
    ensures Kids(h, v) == Kids(h, u)
  {
  }

  lemma SameRefSameTree(h: Heap, v: Value, u: Value, depth: nat)
    requires !Rejected(h, v) && Enters(v).Some? && Enters(v) == Enters(u) && Tree(h, u, depth).Some?
    ensures Tree(h, v, depth).Some?
  {
    SameRefSameKids(h, v, u);
  }

  /** Without aliasing an address determines the reference. */
  lemma SameAddressSameRef(h: Heap, v: Value, u: Value)
    requires NoAliasing(h) && !Rejected(h, v) && !Rejected(h, u) && Enters(v).Some? && Enters(u).Some?
    requires Enters(v).value.address == Enters(u).value.address
    ensures Enters(v) == Enters(u)
  {
    assert Enters(v).value in h && Enters(u).value in h;
  }

  /** A value with a tree does not meet its own address further down: its tree would contain itself. */
  lemma {:induction false} EnteredOnce(h: Heap, v: Value, depth: nat, w: seq<nat>)
    requires NoAliasing(h) && Tree(h, v, depth).Some? && IsPath(h, v, w) && w != []
    requires Enters(v).Some? && Enters(At(h, v, w)).Some?
    ensures Enters(v).value.address != Enters(At(h, v, w)).value.address
    decreases depth
  {
    TreeBelow(h, v, depth, w);
    var u := At(h, v, w);
    if Enters(v).value.address == Enters(u).value.address {
      SameAddressSameRef(h, v, u);
      SameRefSameTree(h, v, u, depth - |w|);
      EnteredOnce(h, v, depth - |w|, w);
    }
  }

  lemma {:induction false} TrailIsEntered(h: Heap, v: Value, w: seq<nat>, i: nat) returns (u: seq<nat>)
    requires IsPath(h, v, w) && i < |Trail(h, v, w)|
    ensures IsPath(h, v, u)
    ensures Enters(At(h, v, u)).Some? && Enters(At(h, v, u)).value.address == Trail(h, v, w)[i]
    decreases |w|
  {
    var k := if Enters(v).Some? then 1 else 0;
    if i < k {
      u := [];
    } else {
      var below := TrailIsEntered(h, Kids(h, v)[w[0]], w[1..], i - k);
      u := [w[0]] + below;
      PathCons(h, v, w[0], below);
    }
  }

  lemma PathCons(h: Heap, v: Value, j: nat, w: seq<nat>)
    requires j < |Kids(h, v)| && IsPath(h, Kids(h, v)[j], w)
    ensures IsPath(h, v, [j] + w) && At(h, v, [j] + w) == At(h, Kids(h, v)[j], w)
  {
    assert ([j] + w)[1..] == w;
  }

  lemma {:induction false} FiniteIsAcyclic(h: Heap, v: Value, depth: nat, w: seq<nat>)
    requires NoAliasing(h) && Tree(h, v, depth).Some? && IsPath(h, v, w)
    ensures NoRepeat(Trail(h, v, w), {})
    decreases |w|
  {
    if w != [] {
      var kid := Kids(h, v)[w[0]];
      TreeAllEach(h, Kids(h, v), depth - 1, w[0]);
      FiniteIsAcyclic(h, kid, depth - 1, w[1..]);
      var below := Trail(h, kid, w[1..]);
      if Enters(v).Some? {
        forall i | 0 <= i < |below| ensures below[i] != Enters(v).value.address {
          var u := TrailIsEntered(h, kid, w[1..], i);
          PathCons(h, v, w[0], u);
          EnteredOnce(h, v, depth, [w[0]] + u);
        }
      }
    }
  }

  /** Where no two references share an address, exactly the values with a finite tree are accepted. */
  lemma AcceptedIffFinite(h: Heap, v: Value)
    requires NoAliasing(h)
    ensures Unfold(h, v, {}).Some? <==> exists depth :: Tree(h, v, depth).Some?
  {
    AcceptedExactly(h, v);
    if depth: nat :| Tree(h, v, depth).Some? {
      forall w | IsPath(h, v, w) ensures NoRepeat(Trail(h, v, w), {}) { FiniteIsAcyclic(h, v, depth, w); }
    }
  }

  // ---- Values without a tree ----

  ghost predicate NoTree(h: Heap, v: Value) {
    forall depth: nat :: Tree(h, v, depth).None?
  }

  lemma RejectedHasNoTree(h: Heap, v: Value)
    requires Rejected(h, v)
    ensures NoTree(h, v)
  {
  }

  lemma NoTreeAbove(h: Heap, v: Value, i: nat)
    requires i < |Kids(h, v)| && NoTree(h, Kids(h, v)[i])
    ensures NoTree(h, v)
  {
    forall depth: nat ensures Tree(h, v, depth).None? {
      if Tree(h, v, depth).Some? { TreeAllEach(h, Kids(h, v), depth - 1, i); }
    }
  }

  // A struct whose second field points to its first, an unexported number at the address of the struct.
  const PLAIN := Type(false, false)
  const WORD := Concrete(PLAIN, Int(7))
  const INNER := Pointer(Some(Ref(1, 1)))
  const HIDDEN := Field("a", false, false, false, None, false, WORD)
  const SHOWN := Field("B", true, false, false, None, false, INNER)
  const OUTER := Concrete(PLAIN, Struct([HIDDEN, SHOWN]))
  const ALIASED: Heap := map[Ref(1, 0) := Target(OUTER), Ref(1, 1) := Target(WORD)]

  lemma AliasedKids()
    ensures !Rejected(ALIASED, OUTER) && Kids(ALIASED, OUTER) == [INNER]
  {
    assert [HIDDEN, SHOWN][..1] == [HIDDEN] && [HIDDEN][..0] == [];
    assert VisitedFields(ALIASED, [HIDDEN]) == [];
    assert VisitedFields(ALIASED, [HIDDEN, SHOWN]) == [SHOWN];
    assert FieldValues([SHOWN]) == [INNER];
  }

  /**
   With aliasing the detection is too strict: the struct has a finite tree, yet
   its address is met again inside it and it is refused.
   */
  lemma InteriorPointerRefused()
    ensures Unfold(ALIASED, Pointer(Some(Ref(1, 0))), {}).None?
    ensures Tree(ALIASED, Pointer(Some(Ref(1, 0))), 4).Some?
  {
    var v := Pointer(Some(Ref(1, 0)));
    AliasedKids();
    OneKid(ALIASED, INNER, WORD, 1);
    OneKid(ALIASED, OUTER, INNER, 2);
    OneKid(ALIASED, v, OUTER, 3);
    assert Inner(v, {}) == {1};
    OneKidRefused(ALIASED, OUTER, INNER, {1});
    OneKidRefused(ALIASED, v, OUTER, {});
  }

  lemma OneKidRefused(h: Heap, v: Value, kid: Value, active: set<nat>)
    requires Kids(h, v) == [kid] && Unfold(h, kid, Inner(v, active)).None?
    ensures Unfold(h, v, active).None?
  {
    UnfoldAllEach(h, [kid], Inner(v, active));
    assert [kid][0] == kid;
  }

  lemma OneKid(h: Heap, v: Value, kid: Value, n: nat)
    requires !Rejected(h, v) && Kids(h, v) == [kid] && Tree(h, kid, n).Some?
    ensures Tree(h, v, n + 1).Some?
  {
    assert [kid][..0] == [];
    assert TreeAll(h, [kid], n).Some?;
  }
}
