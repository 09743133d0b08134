/**
 One publish of a docs release to a bucket, which may stop after any write, and
 what it leaves behind.
 */
module DocsPublisher {
  import opened Wrappers
  import opened DocsVersions
  import opened DocsManifest

  // ---- Uploading ----

  datatype Status = Running | Conflict(key: string) | Stopped

  /** `budget` is the number of writes before the process is stopped. */
  datatype Progress = Progress(objects: Objects, budget: nat, status: Status)

  /** An existing immutable object is kept if it is identical, and ends the publish if it is not. */
  function UploadOne(p: Progress, s: ObjectSpec): Progress {
    if !p.status.Running? then p
    else if s.immutable && s.key in p.objects then
      if p.objects[s.key] == s.content then p else p.(status := Conflict(s.key))
    else if p.budget == 0 then p.(status := Stopped)
    else p.(objects := p.objects[s.key := s.content], budget := p.budget - 1)
  }

  function Uploads(p: Progress, specs: seq<ObjectSpec>): Progress {
    if specs == [] then p else UploadOne(Uploads(p, specs[..|specs| - 1]), specs[|specs| - 1])
  }

  // ---- Deciding ----

  /** The version the marker of a language names, if it names one. */
  function MarkerVersion(b: Objects, l: Language): Option<Version> {
    if MarkerKey(l) in b && b[MarkerKey(l)].Marker? then ParseVersion(l, b[MarkerKey(l)].version) else None
  }

  function CurrentLatest(b: Objects, l: Language): (current: Result<string, Refusal>)
    ensures current.Success? ==> ParseVersion(l, current.value) == MarkerVersion(b, l)
    ensures current.Failure? <==> MarkerKey(l) in b && !b[MarkerKey(l)].Marker?
  {
    if MarkerKey(l) !in b then Success("")
    else match b[MarkerKey(l)]
      case Marker(_, version, _, _) => Success(version)
      case _ => Failure(UnreadableMarker)
  }

  /** An update is at least the marker's version; only a version below the marker's is no update. */
  ghost predicate Decides(candidate: Version, marker: Option<Version>, update: bool) {
    if update then marker.Some? ==> AtLeast(candidate, marker.value)
    else marker.Some? && !AtLeast(candidate, marker.value)
  }

  function ShouldUpdateLatest(l: Language, candidate: Version, current: string): (update: Result<bool, Refusal>)
    ensures update.Success? ==> Decides(candidate, ParseVersion(l, current), update.value)
    ensures update.Failure? <==> current != "" && ParseVersion(l, current).None?
  {
    if current == "" then Success(true)
    else if ParseVersion(l, current).None? then Failure(UnsupportedVersion(current))
    else Success(AtLeast(candidate, ParseVersion(l, current).value))
  }

  /** A later version updates the marker, an earlier one never does. */
  lemma LaterUpdates(l: Language, s: string, t: string)
    requires Later(l, s, t)
    ensures ShouldUpdateLatest(l, ParseVersion(l, t).value, s) == Success(true)
    ensures ShouldUpdateLatest(l, ParseVersion(l, s).value, t) == Success(false)
  {
    VersionStartsWithDigit(l, s);
    VersionStartsWithDigit(l, t);
  }

  /** Everything decided before the first write: a refusal, or whether this release becomes the latest. */
  ghost function Plan(b: Objects, r: Release): (plan: Result<bool, Refusal>)
    ensures plan.Success? ==>
              && ParseVersion(r.language, r.version).Some? && DistinctKeys(Manifest(r, plan.value))
              && Decides(ParseVersion(r.language, r.version).value, MarkerVersion(b, r.language), plan.value)
  {
    var candidate := ParseVersion(r.language, r.version);
    if candidate.None? then Failure(UnsupportedVersion(r.version))
    else
      var current := CurrentLatest(b, r.language);
      if current.Failure? then Failure(current.error)
      else
        var update := ShouldUpdateLatest(r.language, candidate.value, current.value);
        if update.Failure? then update
        else
          var built := Build(r, update.value);
          if built.Failure? then Failure(built.error) else update
  }

  /** The marker is absent, or names no version, or one that parses. */
  ghost predicate MarkerParses(b: Objects, l: Language) {
    MarkerKey(l) in b ==>
      && b[MarkerKey(l)].Marker?
      && (b[MarkerKey(l)].version == "" || ParseVersion(l, b[MarkerKey(l)].version).Some?)
  }

  /** A planned release is decided on exactly when the marker can be read, and refused only by its own build. */
  lemma PlanByMarker(b: Objects, r: Release)
    requires ParseVersion(r.language, r.version).Some?
    ensures !MarkerParses(b, r.language) ==> Plan(b, r).Failure?
    ensures MarkerParses(b, r.language) ==>
              exists update :: Plan(b, r) == if Build(r, update).Success? then Success(update)
                                             else Failure(Build(r, update).error)
  {
    var candidate, current := ParseVersion(r.language, r.version).value, CurrentLatest(b, r.language);
    if MarkerParses(b, r.language) {
      var update := ShouldUpdateLatest(r.language, candidate, current.value).value;
      assert Plan(b, r) == if Build(r, update).Success? then Success(update) else Failure(Build(r, update).error);
    }
  }

  /** A directory is published exactly when its version parses, the marker can be read, and it has an index page. */
  lemma PlanSucceedsExactly(b: Objects, r: Release)
    requires ValidListing(r.files)
    ensures Plan(b, r).Success? <==>
            && ParseVersion(r.language, r.version).Some?
            && MarkerParses(b, r.language)
            && exists i :: 0 <= i < |r.files| && r.files[i].rel == "index.html"
  {
    if ParseVersion(r.language, r.version).Some? {
      BuildsWithIndex(r);
      PlanByMarker(b, r);
    }
  }

  /** A directory listing of a version that parses is built exactly when it has an index page. */
  lemma BuildsWithIndex(r: Release)
    requires ValidListing(r.files) && ParseVersion(r.language, r.version).Some?
    ensures forall update :: Build(r, update).Success? <==>
              exists i :: 0 <= i < |r.files| && r.files[i].rel == "index.html"
    ensures forall update :: Build(r, update).Failure? ==> Build(r, update).error == MissingIndex
  {
    NeverDuplicates(r, true);
    NeverDuplicates(r, false);
    if HasIndex(r.files) {
      var f :| f in r.files && f.rel == INDEX;
      var i :| 0 <= i < |r.files| && r.files[i] == f;
    }
  }

  /** Why a directory is not published: the first of the four reasons that applies. */
  lemma PlanRefusesWith(b: Objects, r: Release)
    requires ValidListing(r.files) && Plan(b, r).Failure?
    ensures var marker := MarkerKey(r.language);
            Plan(b, r).error ==
            if ParseVersion(r.language, r.version).None? then UnsupportedVersion(r.version)
            else if marker in b && !b[marker].Marker? then UnreadableMarker
            else if marker in b && b[marker].version != "" && ParseVersion(r.language, b[marker].version).None?
            then UnsupportedVersion(b[marker].version)
            else MissingIndex
  {
    if ParseVersion(r.language, r.version).Some? { BuildsWithIndex(r); }
  }

  // ---- Publishing ----

  datatype Outcome = Refused(reason: Refusal) | Conflicted(key: string) | Interrupted | Complete(updated: bool)

  function KeySet(specs: seq<ObjectSpec>): set<string> {
    set k | k in KeysOf(specs)
  }

  /** The objects under the language's latest prefix that are not to be kept. */
  ghost function Stale(b: Objects, l: Language, keep: set<string>): set<string> {
    set k | k in b && IsLatestKey(l, k) && k !in keep
  }

  /** Some stale objects are gone, all of them if the cleanup completed; nothing else changed. */
  ghost predicate Cleans(b: Objects, stale: set<string>, b': Objects, complete: bool) {
    && b'.Keys <= b.Keys && (forall k :: k in b' ==> b'[k] == b[k])
    && b.Keys - b'.Keys <= stale
    && (complete ==> b'.Keys == b.Keys - stale)
  }

  /** What follows the uploads of `r`. */
  ghost predicate Finishes(p: Progress, r: Release, update: bool, b': Objects, o: Outcome) {
    match p.status
    case Conflict(k) => b' == p.objects && o == Conflicted(k)
    case Stopped => b' == p.objects && o == Interrupted
    case Running =>
      if !update then b' == p.objects && o == Complete(false)
      else
        && Cleans(p.objects, Stale(p.objects, r.language, KeySet(Manifest(r, true))), b', o.Complete?)
        && (o == Complete(true) || o == Interrupted)
  }

  /** A publish of `r` that is stopped after `budget` writes takes `b` to `b'`. */
  ghost predicate Publishes(b: Objects, r: Release, budget: nat, b': Objects, o: Outcome) {
    var plan := Plan(b, r);
    if plan.Failure? then b' == b && o == Refused(plan.error)
    else Finishes(Uploads(Progress(b, budget, Running), Manifest(r, plan.value)), r, plan.value, b', o)
  }

  /** A publish of `r`, stopped or not. */
  ghost predicate PublishStep(b: Objects, r: Release, b': Objects, o: Outcome) {
    exists budget :: Publishes(b, r, budget, b', o)
  }

  class Bucket {
    var objects: Objects

    constructor ()
      ensures objects == map[]
    {
      objects := map[];
    }

    method Upload(s: ObjectSpec, budget: nat) returns (status: Status, left: nat)
      modifies this
      ensures Progress(objects, left, status) == UploadOne(Progress(old(objects), budget, Running), s)
    {
      if s.immutable && s.key in objects {
        if objects[s.key] == s.content {
          return Running, budget;
        }
        return Conflict(s.key), budget;
      }
      if budget == 0 {
        return Stopped, 0;
      }
      objects := objects[s.key := s.content];
      return Running, budget - 1;
    }

    method UploadAll(specs: seq<ObjectSpec>, budget: nat) returns (status: Status, left: nat)
      modifies this
      ensures Progress(objects, left, status) == Uploads(Progress(old(objects), budget, Running), specs)
    {
      ghost var start := Progress(objects, budget, Running);
      status, left := Running, budget;
      for i := 0 to |specs|
        invariant status == Running && Progress(objects, left, Running) == Uploads(start, specs[..i])
      {
        assert specs[..i + 1][..i] == specs[..i];
        status, left := Upload(specs[i], left);
        if status != Running {
          StaysEnded(start, specs, i + 1);
          return;
        }
      }
      assert specs[..|specs|] == specs;
    }

    /** Deletes what the listing shows under the prefix, in the order of the listing, unless it is to be kept. */
    method CleanupLatest(l: Language, keep: set<string>, budget: nat) returns (complete: bool)
      modifies this
      ensures Cleans(old(objects), Stale(old(objects), l, keep), objects, complete)
    {
      ghost var before := objects;
      ghost var stale := Stale(before, l, keep);
      var listed := set k | k in objects && IsLatestKey(l, k);
      var left := budget;
      while listed != {}
        invariant listed <= before.Keys && (forall k :: k in listed ==> IsLatestKey(l, k))
        invariant Cleans(before, stale, objects, false)
        invariant forall k :: k in stale && k in objects ==> k in listed
      {
        var k :| k in listed;
        if k !in keep {
          if left == 0 {
            return false;
          }
          objects := objects - {k};
          left := left - 1;
        }
        listed := listed - {k};
      }
      complete := true;
    }

    method Publish(r: Release, budget: nat) returns (o: Outcome)
      modifies this
      ensures Publishes(old(objects), r, budget, objects, o)
    {
      var candidate := ParseVersion(r.language, r.version);
      if candidate.None? {
        return Refused(UnsupportedVersion(r.version));
      }
      var current := CurrentLatest(objects, r.language);
      if current.Failure? {
        return Refused(current.error);
      }
      var update := ShouldUpdateLatest(r.language, candidate.value, current.value);
      if update.Failure? {
        return Refused(update.error);
      }
      var built := BuildObjects(r, update.value);
      if built.Failure? {
        return Refused(built.error);
      }
      var status, left := UploadAll(built.value, budget);
      match status
      case Conflict(k) => return Conflicted(k);
      case Stopped => return Interrupted;
      case Running =>
        if !update.value {
          return Complete(false);
        }
        var complete := CleanupLatest(r.language, KeySet(built.value), left);
        return if complete then Complete(true) else Interrupted;
    }
  }

  lemma {:induction false} StaysEnded(p: Progress, specs: seq<ObjectSpec>, n: nat)
    requires n <= |specs| && !Uploads(p, specs[..n]).status.Running?
    ensures Uploads(p, specs) == Uploads(p, specs[..n])
    decreases |specs| - n
  {
    if n < |specs| {
      assert specs[..n + 1][..n] == specs[..n];
      StaysEnded(p, specs, n + 1);
    } else {
      assert specs[..n] == specs;
    }
  }

  // ---- What uploads change ----

  ghost predicate Same(a: Objects, b: Objects, k: string) {
    (k in a <==> k in b) && (k in a ==> a[k] == b[k])
  }

  lemma {:induction false} UploadsFrame(p: Progress, specs: seq<ObjectSpec>, k: string)
    requires k !in KeysOf(specs)
    ensures Same(p.objects, Uploads(p, specs).objects, k)
  {
    if specs != [] {
      var n := |specs| - 1;
      assert KeysOf(specs)[n] == specs[n].key;
      forall i | 0 <= i < n ensures KeysOf(specs[..n])[i] != k { assert KeysOf(specs)[i] == specs[i].key; }
      UploadsFrame(p, specs[..n], k);
    }
  }

  lemma {:induction false} UploadsKeep(p: Progress, specs: seq<ObjectSpec>, k: string)
    requires k in p.objects && forall i :: 0 <= i < |specs| && specs[i].key == k ==> specs[i].immutable
    ensures Same(p.objects, Uploads(p, specs).objects, k)
  {
    if specs != [] {
      UploadsKeep(p, specs[..|specs| - 1], k);
    }
  }

  ghost predicate Holds(b: Objects, s: ObjectSpec) {
    s.key in b && b[s.key] == s.content
  }

  lemma DistinctFront(specs: seq<ObjectSpec>, n: nat)
    requires DistinctKeys(specs) && n < |specs|
    ensures DistinctKeys(specs[..n]) && specs[n].key !in KeysOf(specs[..n])
  {
    forall i | 0 <= i < n ensures KeysOf(specs[..n])[i] == KeysOf(specs)[i] != specs[n].key {
      assert KeysOf(specs)[n] == specs[n].key;
    }
  }

  /** Uploads that ran to the end left every object in place. */
  lemma {:induction false} UploadsHold(p: Progress, specs: seq<ObjectSpec>, i: nat)
    requires Uploads(p, specs).status.Running? && DistinctKeys(specs) && i < |specs|
    ensures Holds(Uploads(p, specs).objects, specs[i])
  {
    var n := |specs| - 1;
    DistinctFront(specs, n);
    if i < n {
      assert KeysOf(specs[..n])[i] == specs[i].key;
      UploadsHold(p, specs[..n], i);
    }
  }

  /** A conflict names an immutable object that was in the bucket with other contents. */
  lemma {:induction false} ConflictIsReal(p: Progress, specs: seq<ObjectSpec>, k: string)
    requires p.status.Running? && DistinctKeys(specs) && Uploads(p, specs).status == Conflict(k)
    ensures exists i :: 0 <= i < |specs| && specs[i].immutable && specs[i].key == k
                        && k in p.objects && p.objects[k] != specs[i].content
  {
    var n := |specs| - 1;
    DistinctFront(specs, n);
    if Uploads(p, specs[..n]).status.Running? {
      UploadsFrame(p, specs[..n], specs[n].key);
    } else {
      ConflictIsReal(p, specs[..n], k);
    }
  }

  ghost predicate NoConflict(b: Objects, specs: seq<ObjectSpec>) {
    forall i :: 0 <= i < |specs| && specs[i].immutable && specs[i].key in b ==> Holds(b, specs[i])
  }

  /** Without a conflict in the bucket uploads do not meet one. */
  lemma {:induction false} UploadsMeetNoConflict(p: Progress, specs: seq<ObjectSpec>)
    requires !p.status.Conflict? && NoConflict(p.objects, specs) && DistinctKeys(specs)
    ensures !Uploads(p, specs).status.Conflict? && NoConflict(Uploads(p, specs).objects, specs)
  {
    if specs != [] {
      var n := |specs| - 1;
      DistinctFront(specs, n);
      var front, b := specs[..n], Uploads(p, specs[..n]).objects;
      assert NoConflict(p.objects, front) by { assert forall i :: 0 <= i < n ==> front[i] == specs[i]; }
      UploadsMeetNoConflict(p, front);
      UploadsFrame(p, front, specs[n].key);
      forall i | 0 <= i < |specs| && specs[i].immutable && specs[i].key in Uploads(p, specs).objects
        ensures Holds(Uploads(p, specs).objects, specs[i])
      {
        if i < n { assert KeysOf(front)[i] == specs[i].key && front[i] == specs[i]; }
      }
    }
  }
}
