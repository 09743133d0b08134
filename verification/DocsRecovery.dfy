/** What a completed publish leaves in the bucket, and how publishing again repairs a stopped one. */
module DocsRecovery {
  import opened Wrappers
  import opened DocsVersions
  import opened DocsManifest
  import opened DocsPublisher
  import opened DocsRuns

  // ---- A completed publish ----

  /** After `r` completed, `k` holds what the manifest says, is gone if it was stale, and is untouched otherwise. */
  ghost predicate Settled(b: Objects, r: Release, update: bool, b': Objects, k: string) {
    var specs := Manifest(r, update);
    if k in KeysOf(specs) then forall i :: 0 <= i < |specs| && specs[i].key == k ==> Holds(b', specs[i])
    else if update && IsLatestKey(r.language, k) then k !in b'
    else Same(b, b', k)
  }

  lemma FinishSettles(p: Progress, r: Release, update: bool, b': Objects, o: Outcome, k: string)
    requires Finishes(p, r, update, b', o) && o.Complete? && k !in KeysOf(Manifest(r, update))
    ensures update && IsLatestKey(r.language, k) ==> k !in b'
  {
    if update && k in p.objects && IsLatestKey(r.language, k) {
      assert k in Stale(p.objects, r.language, KeySet(Manifest(r, true)));
    }
  }

  lemma CompletePlan(b: Objects, r: Release, b': Objects, o: Outcome) returns (budget: nat)
    requires PublishStep(b, r, b', o) && o.Complete?
    ensures Plan(b, r) == Success(o.updated) && Uploaded(b, r, budget).status.Running?
    ensures Publishes(b, r, budget, b', o)
  {
    budget :| Publishes(b, r, budget, b', o);
  }

  lemma StepHolds(b: Objects, r: Release, b': Objects, o: Outcome, i: nat)
    requires PublishStep(b, r, b', o) && o.Complete? && i < |Manifest(r, o.updated)|
    ensures Holds(b', Manifest(r, o.updated)[i])
  {
    var budget := CompletePlan(b, r, b', o);
    var specs := Manifest(r, o.updated);
    UploadsHold(Progress(b, budget, Running), specs, i);
    assert KeysOf(specs)[i] == specs[i].key;
    OnlyStaleGo(b, r, budget, b', o, specs[i].key);
  }

  lemma StepSettles(b: Objects, r: Release, b': Objects, o: Outcome, k: string)
    requires PublishStep(b, r, b', o) && o.Complete?
    ensures Settled(b, r, o.updated, b', k)
  {
    var specs := Manifest(r, o.updated);
    if k in KeysOf(specs) {
      forall i | 0 <= i < |specs| && specs[i].key == k ensures Holds(b', specs[i]) { StepHolds(b, r, b', o, i); }
    } else {
      var budget := CompletePlan(b, r, b', o);
      FinishSettles(Uploaded(b, r, budget), r, o.updated, b', o, k);
      if !(o.updated && IsLatestKey(r.language, k)) { StepFrame(b, r, b', o, k); }
    }
  }

  lemma SlotStays(b: Objects, r: Release, b': Objects, s: Slot)
    requires PublishStep(b, r, b', Complete(true)) && Belongs(r.files, true, s)
    ensures Holds(b', SpecOf(r, s))
  {
    SlotMembers(r, true, s);
    var i :| 0 <= i < |Slots(r, true)| && Slots(r, true)[i] == s;
    StepHolds(b, r, b', Complete(true), i);
  }

  /** The slot behind a key of the manifest under the latest prefix. */
  lemma LatestSlot(r: Release, k: string) returns (s: Slot)
    requires ParseVersion(r.language, r.version).Some? && k in KeysOf(Manifest(r, true)) && IsLatestKey(r.language, k)
    ensures OfLatest(s) && Belongs(r.files, true, s) && KeyOf(r, s) == k
  {
    var slots := Slots(r, true);
    var i :| 0 <= i < |slots| && KeysOf(Manifest(r, true))[i] == k;
    s := slots[i];
    ManifestPlaced(r, true, i);
    SlotMembers(r, true, s);
  }

  /** `k` is where a file of the release, or the alias of its index page, stands under the latest prefix. */
  ghost predicate IsLatestFile(r: Release, k: string, f: SourceFile) {
    f in r.files && (k == LatestPrefix(r.language) + f.rel || (f.rel == INDEX && k == LatestPrefix(r.language)))
  }

  lemma LatestKeyIsAFile(b: Objects, r: Release, b': Objects, k: string) returns (f: SourceFile)
    requires PublishStep(b, r, b', Complete(true)) && k in b' && IsLatestKey(r.language, k)
    ensures IsLatestFile(r, k, f)
  {
    StepSettles(b, r, b', Complete(true), k);
    var budget := CompletePlan(b, r, b', Complete(true));
    var s := LatestSlot(r, k);
    f := s.file;
  }

  /**
   Whatever earlier publishes left under the latest prefix, a completed update
   leaves exactly its own files there, and the alias of its index page.
   */
  lemma LatestExact(b: Objects, r: Release, b': Objects)
    requires PublishStep(b, r, b', Complete(true))
    ensures forall f :: f in r.files ==>
              && Holds(b', ObjectSpec(LatestPrefix(r.language) + f.rel, File(f.bytes), false))
              && (f.rel == INDEX ==> Holds(b', ObjectSpec(LatestPrefix(r.language), File(f.bytes), false)))
    ensures forall k :: k in b' && IsLatestKey(r.language, k) ==> exists f :: IsLatestFile(r, k, f)
  {
    forall f | f in r.files ensures Holds(b', ObjectSpec(LatestPrefix(r.language) + f.rel, File(f.bytes), false)) {
      SlotStays(b, r, b', LatestFile(f));
    }
    forall f | f in r.files && f.rel == INDEX
      ensures Holds(b', ObjectSpec(LatestPrefix(r.language), File(f.bytes), false))
    {
      SlotStays(b, r, b', LatestIndex(f));
    }
    forall k | k in b' && IsLatestKey(r.language, k) ensures exists f :: IsLatestFile(r, k, f) {
      var f := LatestKeyIsAFile(b, r, b', k);
    }
  }

  // ---- A publish that is not stopped ----

  /** Enough budget takes uploads without a conflict to the end. */
  lemma {:induction false} UploadsFinish(p: Progress, specs: seq<ObjectSpec>)
    requires p.status.Running? && NoConflict(p.objects, specs) && DistinctKeys(specs) && p.budget >= |specs|
    ensures Uploads(p, specs).status.Running? && Uploads(p, specs).budget >= p.budget - |specs|
  {
    if specs != [] {
      var n := |specs| - 1;
      var front := specs[..n];
      DistinctFront(specs, n);
      assert NoConflict(p.objects, front) by { assert forall i :: 0 <= i < n ==> front[i] == specs[i]; }
      UploadsFinish(p, front);
      UploadsFrame(p, front, specs[n].key);
    }
  }

  lemma CanFinish(p: Progress, r: Release, update: bool) returns (b': Objects)
    requires p.status.Running?
    ensures Finishes(p, r, update, b', Complete(update))
  {
    var stale := if update then Stale(p.objects, r.language, KeySet(Manifest(r, true))) else {};
    b' := p.objects - stale;
    if !update { assert b' == p.objects; }
  }

  lemma CanComplete(b: Objects, r: Release) returns (b': Objects)
    requires Plan(b, r).Success? && NoConflict(b, Manifest(r, Plan(b, r).value))
    ensures PublishStep(b, r, b', Complete(Plan(b, r).value))
  {
    var specs := Manifest(r, Plan(b, r).value);
    UploadsFinish(Progress(b, |specs|, Running), specs);
    b' := CanFinish(Uploaded(b, r, |specs|), r, Plan(b, r).value);
    assert Publishes(b, r, |specs|, b', Complete(Plan(b, r).value));
  }

  /** Progress: a planned publish can complete exactly when no version object in the bucket differs from its own. */
  lemma CompletesExactly(b: Objects, r: Release)
    requires Plan(b, r).Success?
    ensures NoConflict(b, Manifest(r, Plan(b, r).value)) <==> exists b', o :: PublishStep(b, r, b', o) && o.Complete?
  {
    if NoConflict(b, Manifest(r, Plan(b, r).value)) {
      var b' := CanComplete(b, r);
    }
    if b', o :| PublishStep(b, r, b', o) && o.Complete? {
      var budget := CompletePlan(b, r, b', o);
      CompleteMeansNoConflict(b, r, b', o);
    }
  }

  // ---- Publishing again ----

  /** A version is at least itself, so a release always updates its own marker. */
  lemma UpdatesItself(l: Language, version: string)
    requires ParseVersion(l, version).Some?
    ensures ShouldUpdateLatest(l, ParseVersion(l, version).value, version) == Success(true)
  {
  }

  lemma CurrentIsOwn(b: Objects, r: Release)
    requires Holds(b, SpecOf(r, LatestMarker))
    ensures CurrentLatest(b, r.language) == Success(r.version)
  {
    assert SpecOf(r, LatestMarker) == ObjectSpec(MarkerKey(r.language), MarkerOf(r), false);
  }

  lemma PlanOnOwnMarker(b: Objects, r: Release)
    requires CurrentLatest(b, r.language) == Success(r.version) && Published(r).Some? && Build(r, true).Success?
    ensures Plan(b, r) == Success(true)
  {
    UpdatesItself(r.language, r.version);
  }

  lemma PlanByCurrent(b: Objects, b1: Objects, r: Release)
    requires Same(b, b1, MarkerKey(r.language))
    ensures Plan(b1, r) == Plan(b, r)
  {
    assert CurrentLatest(b1, r.language) == CurrentLatest(b, r.language);
  }

  /** A stopped publish does not change what publishing the release again decides. */
  lemma SamePlanAgain(b: Objects, r: Release, b1: Objects)
    requires PublishStep(b, r, b1, Interrupted) && Plan(b, r).Success?
    ensures Plan(b1, r) == Plan(b, r)
  {
    StepMarker(b, r, b1, Interrupted);
    if Same(b, b1, MarkerKey(r.language)) {
      PlanByCurrent(b, b1, r);
    } else {
      CurrentIsOwn(b1, r);
      PlanOnOwnMarker(b1, r);
    }
  }

  lemma CompleteMeansNoConflict(b: Objects, r: Release, b': Objects, o: Outcome)
    requires PublishStep(b, r, b', o) && o.Complete?
    ensures NoConflict(b, Manifest(r, o.updated))
  {
    var budget := CompletePlan(b, r, b', o);
    var specs := Manifest(r, o.updated);
    forall i | 0 <= i < |specs| && specs[i].immutable && specs[i].key in b ensures Holds(b, specs[i]) {
      StepHolds(b, r, b', o, i);
      ManifestPlaced(r, o.updated, i);
      StepKeepsImmutable(b, r, b', o, specs[i].key);
    }
  }

  lemma FinishKeepsNoConflict(p: Progress, r: Release, update: bool, b': Objects, o: Outcome, specs: seq<ObjectSpec>)
    requires Finishes(p, r, update, b', o) && NoConflict(p.objects, specs)
    ensures NoConflict(b', specs)
    ensures !p.status.Conflict? ==> o.Interrupted? || o == Complete(update)
  {
  }

  /** Without a conflict a publish completes or is stopped, and leaves no conflict behind. */
  lemma StaysWithoutConflict(b: Objects, r: Release, b': Objects, o: Outcome)
    requires PublishStep(b, r, b', o) && Plan(b, r).Success? && NoConflict(b, Manifest(r, Plan(b, r).value))
    ensures NoConflict(b', Manifest(r, Plan(b, r).value))
    ensures o.Interrupted? || o == Complete(Plan(b, r).value)
  {
    var budget :| Publishes(b, r, budget, b', o);
    var plan := Plan(b, r).value;
    UploadsMeetNoConflict(Progress(b, budget, Running), Manifest(r, plan));
    FinishKeepsNoConflict(Uploaded(b, r, budget), r, plan, b', o, Manifest(r, plan));
  }

  /** Settled buckets agree wherever the buckets before them agree outside the manifest. */
  lemma SettledAgree(b: Objects, b1: Objects, r: Release, update: bool, b2: Objects, b3: Objects, k: string)
    requires Settled(b1, r, update, b2, k) && Settled(b, r, update, b3, k)
    requires k in KeysOf(Manifest(r, update)) || (update && IsLatestKey(r.language, k)) || Same(b, b1, k)
    ensures Same(b2, b3, k)
  {
    var specs := Manifest(r, update);
    if k in KeysOf(specs) {
      var i :| 0 <= i < |specs| && KeysOf(specs)[i] == k;
      assert specs[i].key == k;
    }
  }

  /** `b1` differs from `b` only where publishing `r` will put it right, and nothing in it stands in the way. */
  ghost predicate Repairable(b: Objects, r: Release, b1: Objects) {
    && Plan(b, r).Success? && Plan(b1, r) == Plan(b, r) && NoConflict(b1, Manifest(r, Plan(b, r).value))
    && forall k :: || k in KeysOf(Manifest(r, Plan(b, r).value))
                   || (Plan(b, r).value && IsLatestKey(r.language, k))
                   || Same(b, b1, k)
  }

  /** The same docs published with another source tag or at another time. */
  ghost predicate SameDocs(r: Release, r': Release) {
    r' == r.(sourceTag := r'.sourceTag, generatedAt := r'.generatedAt)
  }

  lemma SameDocsManifest(r: Release, r': Release, update: bool)
    requires SameDocs(r, r')
    ensures KeysOf(Manifest(r', update)) == KeysOf(Manifest(r, update))
    ensures forall i :: 0 <= i < |Manifest(r, update)| && Manifest(r, update)[i].immutable ==>
              Manifest(r', update)[i] == Manifest(r, update)[i]
  {
    assert Slots(r', update) == Slots(r, update);
    forall i | 0 <= i < |Slots(r, update)|
      ensures KeyOf(r', Slots(r, update)[i]) == KeyOf(r, Slots(r, update)[i])
    {
    }
  }

  lemma SameDocsBuild(r: Release, r': Release, update: bool)
    requires SameDocs(r, r')
    ensures Build(r', update).Success? == Build(r, update).Success?
    ensures Build(r, update).Failure? ==> Build(r', update) == Build(r, update)
  {
    SameDocsManifest(r, r', update);
  }

  lemma SameDocsPlan(b: Objects, r: Release, r': Release)
    requires SameDocs(r, r')
    ensures Plan(b, r') == Plan(b, r)
  {
    SameDocsBuild(r, r', true);
    SameDocsBuild(r, r', false);
  }

  lemma SameDocsConflicts(b: Objects, r: Release, r': Release, update: bool)
    requires SameDocs(r, r')
    ensures NoConflict(b, Manifest(r', update)) <==> NoConflict(b, Manifest(r, update))
  {
    SameDocsManifest(r, r', update);
    SameDocsManifest(r', r, update);
  }

  lemma StoppedStaysRepairable(b: Objects, r: Release, b1: Objects, r': Release, b2: Objects)
    requires Repairable(b, r, b1) && SameDocs(r, r') && PublishStep(b1, r', b2, Interrupted)
    ensures Repairable(b, r, b2)
  {
    var plan := Plan(b, r).value;
    SameDocsPlan(b1, r, r');
    SameDocsPlan(b2, r, r');
    SamePlanAgain(b1, r', b2);
    SameDocsConflicts(b1, r, r', plan);
    SameDocsConflicts(b2, r, r', plan);
    StaysWithoutConflict(b1, r', b2, Interrupted);
    SameDocsManifest(r, r', plan);
    forall k | k !in KeysOf(Manifest(r, plan)) && !(plan && IsLatestKey(r.language, k)) ensures Same(b, b2, k) {
      StepFrame(b1, r', b2, Interrupted, k);
      assert Same(b, b1, k);
    }
  }

  lemma RepairAgrees(b: Objects, r: Release, b1: Objects, b2: Objects, b3: Objects, o: Outcome, k: string)
    requires Repairable(b, r, b1) && o == Complete(Plan(b, r).value)
    requires PublishStep(b1, r, b2, o) && PublishStep(b, r, b3, o)
    ensures Same(b2, b3, k)
  {
    StepSettles(b1, r, b2, o, k);
    StepSettles(b, r, b3, o, k);
    SettledAgree(b, b1, r, o.updated, b2, b3, k);
  }

  lemma SameEverywhere(a: Objects, b: Objects)
    requires forall k :: Same(a, b, k)
    ensures a == b
  {
    forall k ensures k in a <==> k in b { assert Same(a, b, k); }
    assert a.Keys == b.Keys;
    forall k | k in a ensures a[k] == b[k] { assert Same(a, b, k); }
  }

  /** Publishes of the docs of `r`, each of them stopped. */
  ghost predicate StoppedAttempts(states: seq<Objects>, r: Release, attempts: seq<Release>) {
    && |states| == |attempts| + 1
    && forall i :: 0 <= i < |attempts| ==>
         SameDocs(r, attempts[i]) && PublishStep(states[i], attempts[i], states[i + 1], Interrupted)
  }

  lemma {:induction false} KeptAlong<S>(kept: S -> bool, states: seq<S>, n: nat)
    requires n < |states| && kept(states[0])
    requires forall i :: 0 <= i < |states| - 1 && kept(states[i]) ==> kept(states[i + 1])
    ensures kept(states[n])
  {
    if n > 0 {
      KeptAlong(kept, states, n - 1);
      assert kept(states[n - 1 + 1]);
    }
  }

  lemma AttemptsStayRepairable(states: seq<Objects>, r: Release, attempts: seq<Release>)
    requires StoppedAttempts(states, r, attempts) && Repairable(states[0], r, states[0])
    ensures Repairable(states[0], r, states[|attempts|])
  {
    ghost var kept := b => Repairable(states[0], r, b);
    forall i | 0 <= i < |states| - 1 && kept(states[i]) ensures kept(states[i + 1]) {
      StoppedStaysRepairable(states[0], r, states[i], attempts[i], states[i + 1]);
    }
    KeptAlong(kept, states, |attempts|);
  }

  /**
   Recovery: if a release could be published completely, then after any number of
   attempts stopped anywhere, publishing it again is never refused and never
   conflicts, and once it completes the bucket is the one an undisturbed publish
   would have left.
   */
  lemma RetryRecovers(states: seq<Objects>, attempts: seq<Release>, r: Release,
                      b2: Objects, o2: Outcome, b3: Objects, o3: Outcome)
    requires StoppedAttempts(states, r, attempts) && PublishStep(states[|attempts|], r, b2, o2)
    requires PublishStep(states[0], r, b3, o3) && o3.Complete?
    ensures o2.Interrupted? || (o2 == o3 && b2 == b3)
  {
    var b, b1 := states[0], states[|attempts|];
    var budget := CompletePlan(b, r, b3, o3);
    CompleteMeansNoConflict(b, r, b3, o3);
    AttemptsStayRepairable(states, r, attempts);
    StaysWithoutConflict(b1, r, b2, o2);
    if !o2.Interrupted? {
      forall k ensures Same(b2, b3, k) { RepairAgrees(b, r, b1, b2, b3, o3, k); }
      SameEverywhere(b2, b3);
    }
  }
}
