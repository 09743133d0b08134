/** Any run of publishes of any releases in any languages, each of them stopped anywhere or not at all. */
module DocsRuns {
  import opened Wrappers
  import opened DocsVersions
  import opened DocsManifest
  import opened DocsPublisher

  // ---- The manifest in the key space ----

  lemma ManifestPlaced(r: Release, update: bool, i: nat)
    requires ParseVersion(r.language, r.version).Some? && i < |Slots(r, update)|
    ensures Manifest(r, update)[i].key == KeysOf(Manifest(r, update))[i]
    ensures Placed(r.language, Slots(r, update)[i], Manifest(r, update)[i].key)
    ensures Manifest(r, update)[i].immutable <==> ImmutableKey(Manifest(r, update)[i].key)
  {
    SlotPlaced(r, Slots(r, update)[i]);
  }

  /** The uploads of a planned publish from `b`. */
  ghost function Uploaded(b: Objects, r: Release, budget: nat): Progress
    requires Plan(b, r).Success?
  {
    Uploads(Progress(b, budget, Running), Manifest(r, Plan(b, r).value))
  }

  lemma FinishFrame(p: Progress, r: Release, update: bool, b': Objects, o: Outcome, k: string)
    requires Finishes(p, r, update, b', o)
    requires !IsLatestKey(r.language, k) || k in KeysOf(Manifest(r, true)) || !update
    ensures Same(p.objects, b', k)
  {
    assert k in p.objects && k !in b' ==> k in p.objects.Keys - b'.Keys;
  }

  /** After the uploads only stale objects of the latest prefix go, and only in a publish that updates latest. */
  lemma OnlyStaleGo(b: Objects, r: Release, budget: nat, b': Objects, o: Outcome, k: string)
    requires Publishes(b, r, budget, b', o) && Plan(b, r).Success?
    requires !IsLatestKey(r.language, k) || k in KeysOf(Manifest(r, true)) || !Plan(b, r).value
    ensures Same(Uploaded(b, r, budget).objects, b', k)
  {
    FinishFrame(Uploaded(b, r, budget), r, Plan(b, r).value, b', o, k);
  }

  lemma StepKeepsImmutable(b: Objects, r: Release, b': Objects, o: Outcome, k: string)
    requires PublishStep(b, r, b', o) && ImmutableKey(k) && k in b
    ensures k in b' && b'[k] == b[k]
  {
    var budget :| Publishes(b, r, budget, b', o);
    if Plan(b, r).Success? {
      var specs := Manifest(r, Plan(b, r).value);
      forall i | 0 <= i < |specs| && specs[i].key == k ensures specs[i].immutable {
        ManifestPlaced(r, Plan(b, r).value, i);
      }
      UploadsKeep(Progress(b, budget, Running), specs, k);
      if IsLatestKey(r.language, k) { LatestKeyClass(r.language, k); }
      OnlyStaleGo(b, r, budget, b', o, k);
    }
  }

  /** Keys that are neither in the manifest nor under the latest prefix are not touched. */
  lemma StepFrame(b: Objects, r: Release, b': Objects, o: Outcome, k: string)
    requires PublishStep(b, r, b', o)
    requires Plan(b, r).Success? ==> k !in KeysOf(Manifest(r, Plan(b, r).value))
    requires Plan(b, r) == Success(true) ==> !IsLatestKey(r.language, k)
    ensures Same(b, b', k)
  {
    var budget :| Publishes(b, r, budget, b', o);
    if Plan(b, r).Success? {
      UploadsFrame(Progress(b, budget, Running), Manifest(r, Plan(b, r).value), k);
      OnlyStaleGo(b, r, budget, b', o, k);
    }
  }

  lemma StepKeepsOthers(b: Objects, r: Release, b': Objects, o: Outcome, k: string)
    requires PublishStep(b, r, b', o) && !Owns(r.language, k)
    ensures Same(b, b', k)
  {
    if Plan(b, r).Success? {
      var keys := KeysOf(Manifest(r, Plan(b, r).value));
      forall i | 0 <= i < |keys| ensures keys[i] != k { ManifestPlaced(r, Plan(b, r).value, i); }
      if IsLatestKey(r.language, k) { LatestKeyClass(r.language, k); }
    }
    StepFrame(b, r, b', o, k);
  }

  /** A publish ends in a conflict only over an immutable object that was there with other contents, and stays. */
  lemma ConflictedOver(b: Objects, r: Release, b': Objects, k: string)
    requires PublishStep(b, r, b', Conflicted(k))
    ensures Plan(b, r).Success? && ImmutableKey(k) && k in b && k in b' && b'[k] == b[k]
    ensures exists i :: 0 <= i < |Manifest(r, Plan(b, r).value)| && Manifest(r, Plan(b, r).value)[i].key == k
                        && Manifest(r, Plan(b, r).value)[i].content != b[k]
  {
    var budget :| Publishes(b, r, budget, b', Conflicted(k));
    var specs := Manifest(r, Plan(b, r).value);
    ConflictIsReal(Progress(b, budget, Running), specs, k);
    var i :| 0 <= i < |specs| && specs[i].immutable && specs[i].key == k && b[k] != specs[i].content;
    ManifestPlaced(r, Plan(b, r).value, i);
    StepKeepsImmutable(b, r, b', Conflicted(k), k);
  }

  // ---- The marker ----

  ghost predicate VersionPresent(b: Objects, r: Release) {
    forall f :: f in r.files ==>
      && Holds(b, ObjectSpec(VersionPrefix(r) + f.rel, File(f.bytes), true))
      && (f.rel == INDEX ==> Holds(b, ObjectSpec(VersionPrefix(r), File(f.bytes), true)))
  }

  lemma SlotHeld(p: Progress, r: Release, update: bool, s: Slot)
    requires Uploads(p, Manifest(r, update)).status.Running? && DistinctKeys(Manifest(r, update))
    requires Belongs(r.files, update, s)
    ensures Holds(Uploads(p, Manifest(r, update)).objects, SpecOf(r, s))
    ensures SpecOf(r, s).key in KeysOf(Manifest(r, update))
  {
    SlotMembers(r, update, s);
    var i :| 0 <= i < |Slots(r, update)| && Slots(r, update)[i] == s;
    UploadsHold(p, Manifest(r, update), i);
    assert KeysOf(Manifest(r, update))[i] == SpecOf(r, s).key;
  }

  /** The marker is written last: it is untouched, or everything before it is in place. */
  lemma MarkerLast(p: Progress, r: Release)
    requires DistinctKeys(Manifest(r, true))
    ensures Same(p.objects, Uploads(p, Manifest(r, true)).objects, MarkerKey(r.language))
            || Uploads(p, Manifest(r, true)).status.Running?
  {
    var specs := Manifest(r, true);
    var n := |specs| - 1;
    assert Slots(r, true)[n] == LatestMarker;
    DistinctFront(specs, n);
    UploadsFrame(p, specs[..n], MarkerKey(r.language));
  }

  lemma NoMarkerWithoutUpdate(r: Release)
    requires ParseVersion(r.language, r.version).Some?
    ensures MarkerKey(r.language) !in KeysOf(Manifest(r, false))
  {
    FixedKeyClass(r.language, MarkerKey(r.language));
    var slots := Slots(r, false);
    forall i | 0 <= i < |slots| ensures KeysOf(Manifest(r, false))[i] != MarkerKey(r.language) {
      SlotMembers(r, false, slots[i]);
      ManifestPlaced(r, false, i);
    }
  }

  lemma MarkerIsNoLatestKey(l: Language)
    ensures !IsLatestKey(l, MarkerKey(l)) && Owns(l, MarkerKey(l))
  {
    FixedKeyClass(l, MarkerKey(l));
  }

  ghost predicate KeepsImmutable(b: Objects, b': Objects) {
    forall k :: ImmutableKey(k) && k in b ==> k in b' && b'[k] == b[k]
  }

  lemma VersionObjectsStay(b: Objects, r: Release, b': Objects)
    requires ParseVersion(r.language, r.version).Some? && VersionPresent(b, r) && KeepsImmutable(b, b')
    ensures VersionPresent(b', r)
  {
    forall f | f in r.files
      ensures Holds(b', SpecOf(r, VersionFile(f))) && (f.rel == INDEX ==> Holds(b', SpecOf(r, VersionIndex(f))))
    {
      SlotPlaced(r, VersionFile(f));
      SlotPlaced(r, VersionIndex(f));
    }
  }

  lemma UploadedVersion(p: Progress, r: Release, update: bool)
    requires Uploads(p, Manifest(r, update)).status.Running? && DistinctKeys(Manifest(r, update))
    ensures VersionPresent(Uploads(p, Manifest(r, update)).objects, r)
  {
    var b' := Uploads(p, Manifest(r, update)).objects;
    forall f | f in r.files ensures Holds(b', SpecOf(r, VersionFile(f))) {
      SlotHeld(p, r, update, VersionFile(f));
    }
    forall f | f in r.files && f.rel == INDEX ensures Holds(b', SpecOf(r, VersionIndex(f))) {
      SlotHeld(p, r, update, VersionIndex(f));
    }
  }

  /** Uploads that ran to the end survive the cleanup. */
  lemma CleanupKeepsVersion(b: Objects, r: Release, budget: nat, b': Objects, o: Outcome)
    requires Publishes(b, r, budget, b', o) && Plan(b, r).Success? && Uploaded(b, r, budget).status.Running?
    ensures VersionPresent(b', r)
  {
    UploadedVersion(Progress(b, budget, Running), r, Plan(b, r).value);
    forall k | ImmutableKey(k) && k in Uploaded(b, r, budget).objects
      ensures Same(Uploaded(b, r, budget).objects, b', k)
    {
      if IsLatestKey(r.language, k) { LatestKeyClass(r.language, k); }
      OnlyStaleGo(b, r, budget, b', o, k);
    }
    assert KeepsImmutable(Uploaded(b, r, budget).objects, b');
    VersionObjectsStay(Uploaded(b, r, budget).objects, r, b');
  }

  /** One publish leaves its language's marker alone, or it is the latest and has all its version objects in place. */
  lemma StepMarker(b: Objects, r: Release, b': Objects, o: Outcome)
    requires PublishStep(b, r, b', o)
    ensures Same(b, b', MarkerKey(r.language))
            || (Plan(b, r) == Success(true) && Holds(b', SpecOf(r, LatestMarker)) && VersionPresent(b', r))
    ensures o.Complete? && o.updated ==> Plan(b, r) == Success(true) && Holds(b', SpecOf(r, LatestMarker))
    ensures o.Complete? && !o.updated ==> Plan(b, r) == Success(false) && Same(b, b', MarkerKey(r.language))
  {
    var budget :| Publishes(b, r, budget, b', o);
    MarkerIsNoLatestKey(r.language);
    if Plan(b, r) == Success(true) {
      var p := Progress(b, budget, Running);
      MarkerLast(p, r);
      OnlyStaleGo(b, r, budget, b', o, MarkerKey(r.language));
      if Uploaded(b, r, budget).status.Running? {
        SlotHeld(p, r, true, LatestMarker);
        CleanupKeepsVersion(b, r, budget, b', o);
      }
    } else {
      if Plan(b, r).Success? { NoMarkerWithoutUpdate(r); }
      StepFrame(b, r, b', o, MarkerKey(r.language));
    }
  }

  // ---- Earlier and later versions ----

  /** The marker of a language names this version string. */
  ghost predicate Names(b: Objects, l: Language, version: string) {
    MarkerKey(l) in b && b[MarkerKey(l)].Marker? && b[MarkerKey(l)].version == version
  }

  lemma PlanAgainst(b: Objects, r: Release, current: string)
    requires Names(b, r.language, current) && Plan(b, r).Success?
    ensures Later(r.language, r.version, current) ==> !Plan(b, r).value
    ensures Later(r.language, current, r.version) ==> Plan(b, r).value
  {
    if Later(r.language, r.version, current) { LaterUpdates(r.language, r.version, current); }
    if Later(r.language, current, r.version) { LaterUpdates(r.language, current, r.version); }
  }

  /** Publishing a version earlier than the marker's leaves the marker alone, wherever it stops. */
  lemma EarlierKeepsMarker(b: Objects, r: Release, b': Objects, o: Outcome, current: string)
    requires PublishStep(b, r, b', o) && Names(b, r.language, current) && Later(r.language, r.version, current)
    ensures Same(b, b', MarkerKey(r.language)) && o != Complete(true)
  {
    StepMarker(b, r, b', o);
    if Plan(b, r).Success? { PlanAgainst(b, r, current); }
  }

  /** Completing a version later than the marker's moves the marker to it. */
  lemma LaterTakesMarker(b: Objects, r: Release, b': Objects, o: Outcome, current: string)
    requires PublishStep(b, r, b', o) && o.Complete?
    requires Names(b, r.language, current) && Later(r.language, current, r.version)
    ensures o == Complete(true) && Names(b', r.language, r.version)
  {
    StepMarker(b, r, b', o);
    PlanAgainst(b, r, current);
    assert SpecOf(r, LatestMarker) == ObjectSpec(MarkerKey(r.language), MarkerOf(r), false);
  }

  /** A pre-release never replaces its own release as the latest, and the release always replaces it. */
  lemma PreReleasesGiveWay(b: Objects, r: Release, b': Objects, o: Outcome,
                           x: nat, y: nat, z: nat, phase: Phase, n: nat)
    requires PublishStep(b, r, b', o)
    ensures var l, release, pre := r.language, ReleaseText(x, y, z), PreReleaseText(r.language, x, y, z, phase, n);
            && (Names(b, l, release) && r.version == pre ==> Names(b', l, release))
            && (Names(b, l, pre) && r.version == release && o.Complete? ==> Names(b', l, release))
  {
    var l, release, pre := r.language, ReleaseText(x, y, z), PreReleaseText(r.language, x, y, z, phase, n);
    PhaseBeforeRelease(l, x, y, z, phase, n);
    if Names(b, l, release) && r.version == pre { EarlierKeepsMarker(b, r, b', o, release); }
    if Names(b, l, pre) && r.version == release && o.Complete? { LaterTakesMarker(b, r, b', o, pre); }
  }

  // ---- Runs ----

  /** States of the bucket, with the publishes between them. */
  datatype Run = Run(states: seq<Objects>, releases: seq<Release>, outcomes: seq<Outcome>)

  /** Publish `i` of the run takes its state to the next. */
  ghost predicate IsStep(run: Run, i: nat) {
    && i < |run.releases| && i < |run.outcomes| && i + 1 < |run.states|
    && PublishStep(run.states[i], run.releases[i], run.states[i + 1], run.outcomes[i])
  }

  ghost predicate IsRun(run: Run) {
    && |run.states| == |run.releases| + 1 == |run.outcomes| + 1
    && forall i :: 0 <= i < |run.releases| ==> IsStep(run, i)
  }

  /** No stored version object ever changes or goes. */
  lemma {:induction false} ImmutableForever(run: Run, i: nat, j: nat, k: string)
    requires IsRun(run) && i <= j < |run.states| && ImmutableKey(k) && k in run.states[i]
    ensures k in run.states[j] && run.states[j][k] == run.states[i][k]
    decreases j
  {
    if i < j {
      ImmutableForever(run, i, j - 1, k);
      assert IsStep(run, j - 1);
      StepKeepsImmutable(run.states[j - 1], run.releases[j - 1], run.states[j], run.outcomes[j - 1], k);
    }
  }

  ghost function Published(r: Release): Option<Version> {
    ParseVersion(r.language, r.version)
  }

  ghost predicate Rises(a: Option<Version>, b: Option<Version>) {
    a.Some? ==> b.Some? && AtLeast(b.value, a.value)
  }

  /** What one publish of version `v` does to the marker `m` of its own language. */
  lemma RisesByPlan(m: Option<Version>, m': Option<Version>, v: Option<Version>, update: bool)
    requires v.Some? && Decides(v.value, m, update) && (m' == m || (update && m' == v))
    ensures Rises(m, m')
    ensures (if update then m' == v else m' == m) ==> Rises(v, m')
  {
  }

  lemma SameMarker(b: Objects, b': Objects, l: Language)
    requires Same(b, b', MarkerKey(l))
    ensures MarkerVersion(b, l) == MarkerVersion(b', l)
  {
  }

  lemma HeldMarker(b: Objects, r: Release)
    requires Holds(b, SpecOf(r, LatestMarker))
    ensures MarkerVersion(b, r.language) == Published(r)
  {
    assert SpecOf(r, LatestMarker) == ObjectSpec(MarkerKey(r.language), MarkerOf(r), false);
  }

  lemma OtherMarkerKept(b: Objects, r: Release, b': Objects, o: Outcome, l: Language)
    requires PublishStep(b, r, b', o) && l != r.language
    ensures Same(b, b', MarkerKey(l))
  {
    MarkerIsNoLatestKey(l);
    StepKeepsOthers(b, r, b', o, MarkerKey(l));
  }

  lemma StepMonotone(b: Objects, r: Release, b': Objects, o: Outcome, l: Language)
    requires PublishStep(b, r, b', o)
    ensures Rises(MarkerVersion(b, l), MarkerVersion(b', l))
    ensures l == r.language && o.Complete? ==> Published(r).Some? && Rises(Published(r), MarkerVersion(b', l))
  {
    if l != r.language {
      OtherMarkerKept(b, r, b', o, l);
      SameMarker(b, b', l);
    } else {
      StepMarker(b, r, b', o);
      if Same(b, b', MarkerKey(l)) { SameMarker(b, b', l); }
      if Holds(b', SpecOf(r, LatestMarker)) { HeldMarker(b', r); }
      if Plan(b, r).Success? {
        RisesByPlan(MarkerVersion(b, l), MarkerVersion(b', l), Published(r), Plan(b, r).value);
      }
    }
  }

  lemma {:induction false} RisesAlong<S>(mark: S -> Option<Version>, states: seq<S>, i: nat, j: nat)
    requires i <= j < |states| && MarksRise(mark, states)
    ensures Rises(mark(states[i]), mark(states[j]))
    decreases j
  {
    if i < j {
      RisesAlong(mark, states, i, j - 1);
      assert Rises(mark(states[j - 1]), mark(states[j - 1 + 1]));
    }
  }

  function MarkOf(l: Language): Objects -> Option<Version> {
    (b: Objects) => MarkerVersion(b, l)
  }

  /** Every state of the run has a mark at least that of the one before it. */
  ghost predicate MarksRise<S>(mark: S -> Option<Version>, states: seq<S>) {
    forall n :: 0 <= n < |states| - 1 ==> Rises(mark(states[n]), mark(states[n + 1]))
  }

  lemma RunMarksRise(run: Run, l: Language)
    requires IsRun(run)
    ensures MarksRise(MarkOf(l), run.states)
  {
    forall n | 0 <= n < |run.states| - 1 ensures Rises(MarkOf(l)(run.states[n]), MarkOf(l)(run.states[n + 1])) {
      assert IsStep(run, n);
      StepMonotone(run.states[n], run.releases[n], run.states[n + 1], run.outcomes[n], l);
    }
  }

  /** The version a marker names never decreases, from whatever bucket the run begins. */
  lemma MarkerNeverFalls(run: Run, i: nat, j: nat, l: Language)
    requires IsRun(run) && i <= j < |run.states|
    ensures Rises(MarkerVersion(run.states[i], l), MarkerVersion(run.states[j], l))
  {
    RunMarksRise(run, l);
    RisesAlong(MarkOf(l), run.states, i, j);
  }

  /** The marker of `l` is the one `r` writes, and all version objects of `r` are there. */
  ghost predicate BackedBy(b: Objects, r: Release, l: Language) {
    r.language == l && Published(r).Some? && Holds(b, SpecOf(r, LatestMarker)) && VersionPresent(b, r)
  }

  lemma MarkerStays(b: Objects, b': Objects, r: Release)
    requires Holds(b, SpecOf(r, LatestMarker)) && Same(b, b', MarkerKey(r.language))
    ensures Holds(b', SpecOf(r, LatestMarker))
  {
    assert SpecOf(r, LatestMarker).key == MarkerKey(r.language);
  }

  lemma StepKeepsAllImmutable(b: Objects, r: Release, b': Objects, o: Outcome)
    requires PublishStep(b, r, b', o)
    ensures KeepsImmutable(b, b')
  {
    forall k | ImmutableKey(k) && k in b ensures k in b' && b'[k] == b[k] { StepKeepsImmutable(b, r, b', o, k); }
  }

  lemma BackingStays(b: Objects, r: Release, b': Objects, o: Outcome, l: Language, writer: Release)
    requires PublishStep(b, r, b', o) && BackedBy(b, writer, l) && Same(b, b', MarkerKey(l))
    ensures BackedBy(b', writer, l)
  {
    MarkerStays(b, b', writer);
    StepKeepsAllImmutable(b, r, b', o);
    VersionObjectsStay(b, writer, b');
  }

  lemma BackingWritten(b: Objects, r: Release, b': Objects, o: Outcome, l: Language)
    requires PublishStep(b, r, b', o) && !Same(b, b', MarkerKey(l))
    ensures BackedBy(b', r, l)
  {
    if l == r.language { StepMarker(b, r, b', o); } else { OtherMarkerKept(b, r, b', o, l); }
  }

  /**
   Crash consistency: wherever the publishes stop, a marker was written by one
   publish of the run, all of whose version objects are present.
   */
  lemma {:induction false} MarkerIsBacked(run: Run, j: nat, l: Language) returns (w: nat)
    requires IsRun(run) && j < |run.states|
    requires MarkerKey(l) !in run.states[0] && MarkerKey(l) in run.states[j]
    ensures w < j && BackedBy(run.states[j], run.releases[w], l)
  {
    assert IsStep(run, j - 1);
    var b, r, b', o := run.states[j - 1], run.releases[j - 1], run.states[j], run.outcomes[j - 1];
    if Same(b, b', MarkerKey(l)) {
      w := MarkerIsBacked(run, j - 1, l);
      BackingStays(b, r, b', o, l, run.releases[w]);
    } else {
      w := j - 1;
      BackingWritten(b, r, b', o, l);
    }
  }

  lemma RisesFrom<S>(mark: S -> Option<Version>, v: Option<Version>, states: seq<S>, i: nat, j: nat)
    requires i <= j < |states| && MarksRise(mark, states) && Rises(v, mark(states[i]))
    ensures Rises(v, mark(states[j]))
  {
    RisesAlong(mark, states, i, j);
    RisesTransitive(v, mark(states[i]), mark(states[j]));
  }

  lemma CompleteIsMarked(run: Run, i: nat)
    requires IsRun(run) && i < |run.releases| && run.outcomes[i].Complete?
    ensures Published(run.releases[i]).Some?
    ensures Rises(Published(run.releases[i]), MarkOf(run.releases[i].language)(run.states[i + 1]))
  {
    assert IsStep(run, i);
    StepMonotone(run.states[i], run.releases[i], run.states[i + 1], run.outcomes[i], run.releases[i].language);
  }

  /** The marker names a version at least that of every publish that completed. */
  lemma MarkerCoversComplete(run: Run, i: nat, j: nat)
    requires IsRun(run) && i < j < |run.states| && run.outcomes[i].Complete?
    ensures Published(run.releases[i]).Some?
    ensures Rises(Published(run.releases[i]), MarkerVersion(run.states[j], run.releases[i].language))
  {
    var mark := MarkOf(run.releases[i].language);
    CompleteIsMarked(run, i);
    RunMarksRise(run, run.releases[i].language);
    RisesFrom(mark, Published(run.releases[i]), run.states, i + 1, j);
  }

  lemma RisesTransitive(a: Option<Version>, b: Option<Version>, c: Option<Version>)
    requires Rises(a, b) && Rises(b, c)
    ensures Rises(a, c)
  {
  }

  /**
   From a bucket without the marker, if every publish completes then the marker
   names the greatest version published in its language.
   */
  lemma MarkerIsMaximum(run: Run, j: nat, l: Language) returns (w: nat)
    requires IsRun(run) && j < |run.states| && MarkerKey(l) !in run.states[0]
    requires forall i :: 0 <= i < j ==> run.outcomes[i].Complete?
    requires exists i :: 0 <= i < j && run.releases[i].language == l
    ensures w < j && BackedBy(run.states[j], run.releases[w], l)
    ensures forall i :: 0 <= i < j && run.releases[i].language == l ==>
              Published(run.releases[i]).Some? && Rises(Published(run.releases[i]), Published(run.releases[w]))
  {
    forall i | 0 <= i < j && run.releases[i].language == l
      ensures Published(run.releases[i]).Some? && Rises(Published(run.releases[i]), MarkerVersion(run.states[j], l))
    {
      MarkerCoversComplete(run, i, j);
    }
    w := MarkerIsBacked(run, j, l);
    HeldMarker(run.states[j], run.releases[w]);
  }
}
