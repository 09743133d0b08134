/**
 The objects one docs release puts into the bucket: version objects that never
 change, and, when it becomes the latest, a moving copy, redirects and a marker.
 */
module DocsManifest {
  import opened Wrappers
  import opened DocsVersions

  /** What an object holds: bytes of a source file, a generated redirect, or the marker. */
  datatype Content =
    | File(bytes: string)
    | Redirect(target: string)
    | Marker(language: Language, version: string, sourceTag: string, generatedAt: string)

  type Objects = map<string, Content>

  datatype SourceFile = SourceFile(rel: string, bytes: string)

  /** `files` is the listing of the source directory, in the order it is published. */
  datatype Release = Release(
    language: Language, version: string, sourceTag: string, generatedAt: string, files: seq<SourceFile>)

  datatype ObjectSpec = ObjectSpec(key: string, content: Content, immutable: bool)

  const INDEX := "index.html"

  // ---- Keys ----

  function Root(l: Language): string {
    if l.Python? then "api/python" else "api/typescript"
  }

  function Base(l: Language): string {
    if l.Python? then "api/python/" else "api/typescript/"
  }

  function LatestPrefix(l: Language): string {
    if l.Python? then "api/python/latest/" else "api/typescript/latest/"
  }

  function MarkerKey(l: Language): string {
    if l.Python? then "api/python/latest.json" else "api/typescript/latest.json"
  }

  function LegacyIndex(l: Language): string {
    if l.Python? then "api/python/index.html" else "api/typescript/index.html"
  }

  function VersionPrefix(r: Release): string {
    Base(r.language) + r.version + "/"
  }

  /** Keys of version objects: a digit right after the language. */
  predicate IsVersionKey(l: Language, k: string) {
    Base(l) < k && IsDigit(k[|Base(l)|])
  }

  predicate ImmutableKey(k: string) {
    IsVersionKey(Python, k) || IsVersionKey(TypeScript, k)
  }

  predicate IsLatestKey(l: Language, k: string) {
    LatestPrefix(l) <= k
  }

  /** Told apart by one letter: every key of a language, and no key of the other. */
  predicate Owns(l: Language, k: string) {
    |k| > 4 && k[4] == if l.Python? then 'p' else 't'
  }

  lemma LatestKeyClass(l: Language, k: string)
    requires IsLatestKey(l, k)
    ensures Owns(l, k) && !ImmutableKey(k) && k != MarkerKey(l)
  {
    assert k[..|LatestPrefix(l)|] == LatestPrefix(l);
    assert k[4] == LatestPrefix(l)[4] && k[|Base(l)|] == LatestPrefix(l)[|Base(l)|] == 'l';
    assert k[|Base(l)| + 6] == LatestPrefix(l)[|Base(l)| + 6] == '/';
    assert MarkerKey(l)[|Base(l)| + 6] == '.';
  }

  lemma FixedKeyClass(l: Language, k: string)
    requires k in [Root(l), Base(l), LegacyIndex(l), MarkerKey(l)]
    ensures Owns(l, k) && !ImmutableKey(k) && !IsLatestKey(l, k)
  {
    if IsLatestKey(l, k) { LatestKeyClass(l, k); }
  }

  lemma VersionKeyClass(l: Language, k: string)
    requires IsVersionKey(l, k)
    ensures Owns(l, k) && ImmutableKey(k)
  {
    assert k[4] == Base(l)[4];
  }

  lemma VersionPrefixKey(r: Release, rel: string)
    requires ParseVersion(r.language, r.version).Some?
    ensures IsVersionKey(r.language, VersionPrefix(r) + rel)
  {
    VersionStartsWithDigit(r.language, r.version);
    var k := VersionPrefix(r) + rel;
    assert k[..|Base(r.language)|] == Base(r.language);
    assert k[|Base(r.language)|] == r.version[0];
  }

  // ---- The objects of a release ----

  /** The places of a release in the bucket. */
  datatype Slot =
    | VersionFile(file: SourceFile)
    | VersionIndex(file: SourceFile)
    | LatestFile(file: SourceFile)
    | LatestIndex(file: SourceFile)
    | LegacyRedirect(number: nat)
    | LatestMarker

  function KeyOf(r: Release, s: Slot): string {
    match s
    case VersionFile(f) => VersionPrefix(r) + f.rel
    case VersionIndex(_) => VersionPrefix(r)
    case LatestFile(f) => LatestPrefix(r.language) + f.rel
    case LatestIndex(_) => LatestPrefix(r.language)
    case LegacyRedirect(i) =>
      if i == 0 then Root(r.language) else if i == 1 then Base(r.language) else LegacyIndex(r.language)
    case LatestMarker => MarkerKey(r.language)
  }

  function MarkerOf(r: Release): Content {
    Marker(r.language, r.version, r.sourceTag, r.generatedAt)
  }

  function ContentOf(r: Release, s: Slot): Content {
    match s
    case LegacyRedirect(_) => Redirect("/" + LatestPrefix(r.language))
    case LatestMarker => MarkerOf(r)
    case _ => File(s.file.bytes)
  }

  function SpecOf(r: Release, s: Slot): ObjectSpec {
    ObjectSpec(KeyOf(r, s), ContentOf(r, s), s.VersionFile? || s.VersionIndex?)
  }

  function Specs(r: Release, slots: seq<Slot>): (specs: seq<ObjectSpec>)
    ensures |specs| == |slots|
  {
    seq(|slots|, i requires 0 <= i < |slots| => SpecOf(r, slots[i]))
  }

  function SlotsOfFile(f: SourceFile, update: bool): seq<Slot> {
    [VersionFile(f)]
    + (if f.rel == INDEX then [VersionIndex(f)] else [])
    + (if update then [LatestFile(f)] + (if f.rel == INDEX then [LatestIndex(f)] else []) else [])
  }

  function FileSlots(files: seq<SourceFile>, update: bool): seq<Slot> {
    if files == [] then []
    else FileSlots(files[..|files| - 1], update) + SlotsOfFile(files[|files| - 1], update)
  }

  function MovingSlots(update: bool): seq<Slot> {
    if update then [LegacyRedirect(0), LegacyRedirect(1), LegacyRedirect(2)] else []
  }

  /** All slots but the marker's. */
  function Front(r: Release, update: bool): seq<Slot> {
    FileSlots(r.files, update) + MovingSlots(update)
  }

  /** Every object of a release in upload order; the marker comes last. */
  function Slots(r: Release, update: bool): seq<Slot> {
    Front(r, update) + if update then [LatestMarker] else []
  }

  function Manifest(r: Release, update: bool): seq<ObjectSpec> {
    Specs(r, Slots(r, update))
  }

  predicate Belongs(files: seq<SourceFile>, update: bool, s: Slot) {
    match s
    case VersionFile(f) => f in files
    case VersionIndex(f) => f in files && f.rel == INDEX
    case LatestFile(f) => update && f in files
    case LatestIndex(f) => update && f in files && f.rel == INDEX
    case LegacyRedirect(i) => update && i < 3
    case LatestMarker => update
  }

  lemma {:induction false} FileSlotMembers(files: seq<SourceFile>, update: bool, s: Slot)
    ensures s in FileSlots(files, update) <==> !s.LegacyRedirect? && !s.LatestMarker? && Belongs(files, update, s)
  {
    if files != [] {
      var n := |files| - 1;
      FileSlotMembers(files[..n], update, s);
      assert files == files[..n] + [files[n]];
    }
  }

  lemma SlotMembers(r: Release, update: bool, s: Slot)
    ensures s in Slots(r, update) <==> Belongs(r.files, update, s)
  {
    FileSlotMembers(r.files, update, s);
  }

  lemma SpecsAppend(r: Release, a: seq<Slot>, b: seq<Slot>)
    ensures Specs(r, a + b) == Specs(r, a) + Specs(r, b)
  {
  }

  function KeysOf(specs: seq<ObjectSpec>): (keys: seq<string>)
    ensures |keys| == |specs|
  {
    seq(|specs|, i requires 0 <= i < |specs| => specs[i].key)
  }

  ghost predicate Distinct<T>(s: seq<T>) {
    forall i, j :: 0 <= i < j < |s| ==> s[i] != s[j]
  }

  ghost predicate DistinctKeys(specs: seq<ObjectSpec>) {
    Distinct(KeysOf(specs))
  }

  lemma LatestText(l: Language, base: string)
    requires base == if l.Python? then "api/python/" else "api/typescript/"
    ensures LatestPrefix(l) == base + "latest/"
  {
  }

  lemma MarkerText(l: Language, base: string)
    requires base == if l.Python? then "api/python/" else "api/typescript/"
    ensures MarkerKey(l) == base + "latest.json"
  {
  }

  lemma LegacyTexts(l: Language, base: string)
    requires base == if l.Python? then "api/python/" else "api/typescript/"
    ensures Base(l) == base && Root(l) + "/" == base
    ensures LegacyIndex(l) == base + "index.html"
  {
  }

  /** Where the objects of a release stand, and what they hold. */
  lemma Layout(r: Release, f: SourceFile, base: string)
    requires base == if r.language.Python? then "api/python/" else "api/typescript/"
    ensures SpecOf(r, VersionFile(f)) == ObjectSpec(base + r.version + "/" + f.rel, File(f.bytes), true)
    ensures SpecOf(r, VersionIndex(f)) == ObjectSpec(base + r.version + "/", File(f.bytes), true)
    ensures SpecOf(r, LatestFile(f)) == ObjectSpec(base + "latest/" + f.rel, File(f.bytes), false)
    ensures SpecOf(r, LatestIndex(f)) == ObjectSpec(base + "latest/", File(f.bytes), false)
    ensures SpecOf(r, LegacyRedirect(0)).key + "/" == SpecOf(r, LegacyRedirect(1)).key == base
    ensures SpecOf(r, LegacyRedirect(2)).key == base + "index.html"
    ensures forall i :: 0 <= i < 3 ==> SpecOf(r, LegacyRedirect(i)).content == Redirect("/" + (base + "latest/"))
    ensures SpecOf(r, LatestMarker)
            == ObjectSpec(base + "latest.json", Marker(r.language, r.version, r.sourceTag, r.generatedAt), false)
  {
    LegacyTexts(r.language, base);
    LatestText(r.language, base);
    MarkerText(r.language, base);
  }

  // ---- Building the objects ----

  datatype Refusal = UnsupportedVersion(version: string) | UnreadableMarker | MissingIndex | DuplicateKeys

  ghost predicate HasIndex(files: seq<SourceFile>) {
    exists f :: f in files && f.rel == INDEX
  }

  ghost function Build(r: Release, update: bool): Result<seq<ObjectSpec>, Refusal> {
    if !HasIndex(r.files) then Failure(MissingIndex)
    else if !DistinctKeys(Manifest(r, update)) then Failure(DuplicateKeys)
    else Success(Manifest(r, update))
  }

  lemma {:induction false} CountDistinct<T>(s: seq<T>)
    ensures |set x | x in s| <= |s|
    ensures Distinct(s) <==> |set x | x in s| == |s|
  {
    if s != [] {
      var front, last := s[..|s| - 1], s[|s| - 1];
      CountDistinct(front);
      assert s == front + [last];
      assert (set x | x in s) == (set x | x in front) + {last};
      assert Distinct(s) <==> Distinct(front) && last !in front;
    }
  }

  method FileObjects(r: Release, f: SourceFile, update: bool) returns (objects: seq<ObjectSpec>)
    ensures objects == Specs(r, SlotsOfFile(f, update))
  {
    objects := [ObjectSpec(VersionPrefix(r) + f.rel, File(f.bytes), true)];
    if f.rel == INDEX {
      objects := objects + [ObjectSpec(VersionPrefix(r), File(f.bytes), true)];
    }
    if update {
      objects := objects + [ObjectSpec(LatestPrefix(r.language) + f.rel, File(f.bytes), false)];
      if f.rel == INDEX {
        objects := objects + [ObjectSpec(LatestPrefix(r.language), File(f.bytes), false)];
      }
    }
  }

  method BuildObjects(r: Release, update: bool) returns (result: Result<seq<ObjectSpec>, Refusal>)
    ensures result == Build(r, update)
  {
    if !exists f :: f in r.files && f.rel == INDEX {
      return Failure(MissingIndex);
    }
    var objects := [];
    for i := 0 to |r.files|
      invariant objects == Specs(r, FileSlots(r.files[..i], update))
    {
      assert r.files[..i + 1][..i] == r.files[..i];
      var more := FileObjects(r, r.files[i], update);
      SpecsAppend(r, FileSlots(r.files[..i], update), SlotsOfFile(r.files[i], update));
      objects := objects + more;
    }
    assert r.files[..|r.files|] == r.files;
    if update {
      var redirect := Redirect("/" + LatestPrefix(r.language));
      objects := objects + [ObjectSpec(Root(r.language), redirect, false),
                            ObjectSpec(Base(r.language), redirect, false),
                            ObjectSpec(LegacyIndex(r.language), redirect, false)];
      objects := objects + [ObjectSpec(MarkerKey(r.language), MarkerOf(r), false)];
    }
    assert objects == Manifest(r, update);
    var keys := KeysOf(objects);
    CountDistinct(keys);
    if |keys| != |set k | k in keys| {
      return Failure(DuplicateKeys);
    }
    return Success(objects);
  }

  // ---- No release collides with itself ----

  lemma PrefixCancels(p: string, a: string, b: string)
    requires p + a == p + b
    ensures a == b
  {
    assert a == (p + a)[|p|..] == (p + b)[|p|..] == b;
  }

  ghost predicate SameSlot(a: Slot, b: Slot) {
    || (a.VersionFile? && b.VersionFile? && a.file.rel == b.file.rel)
    || (a.VersionIndex? && b.VersionIndex?)
    || (a.LatestFile? && b.LatestFile? && a.file.rel == b.file.rel)
    || (a.LatestIndex? && b.LatestIndex?)
    || (a.LegacyRedirect? && a == b)
    || (a.LatestMarker? && a == b)
  }

  ghost predicate Proper(s: Slot) {
    match s
    case LegacyRedirect(i) => i < 3
    case LatestMarker => true
    case _ => s.file.rel != ""
  }

  predicate OfVersion(s: Slot) {
    s.VersionFile? || s.VersionIndex?
  }

  predicate OfLatest(s: Slot) {
    s.LatestFile? || s.LatestIndex?
  }

  /** Which part of the key space a slot lives in. */
  ghost predicate Placed(l: Language, s: Slot, k: string) {
    && Owns(l, k)
    && (OfVersion(s) <==> ImmutableKey(k))
    && (OfLatest(s) <==> IsLatestKey(l, k))
  }

  lemma FixedSlotPlaced(r: Release, s: Slot)
    requires !OfVersion(s) && !OfLatest(s)
    ensures Placed(r.language, s, KeyOf(r, s))
  {
    FixedKeyClass(r.language, KeyOf(r, s));
  }

  lemma LatestSlotPlaced(r: Release, s: Slot)
    requires OfLatest(s)
    ensures Placed(r.language, s, KeyOf(r, s))
  {
    LatestKeyClass(r.language, KeyOf(r, s));
  }

  lemma VersionSlotKey(r: Release, rel: string, s: Slot)
    requires ParseVersion(r.language, r.version).Some? && OfVersion(s)
    ensures Placed(r.language, s, VersionPrefix(r) + rel)
  {
    var k := VersionPrefix(r) + rel;
    VersionPrefixKey(r, rel);
    VersionKeyClass(r.language, k);
    if IsLatestKey(r.language, k) { LatestKeyClass(r.language, k); }
  }

  lemma VersionSlotPlaced(r: Release, s: Slot)
    requires ParseVersion(r.language, r.version).Some? && OfVersion(s)
    ensures Placed(r.language, s, KeyOf(r, s))
  {
    var rel := if s.VersionFile? then s.file.rel else "";
    VersionSlotKey(r, rel, s);
    assert KeyOf(r, s) == VersionPrefix(r) + rel;
  }

  lemma SlotPlaced(r: Release, s: Slot)
    requires ParseVersion(r.language, r.version).Some?
    ensures Placed(r.language, s, KeyOf(r, s))
  {
    if OfVersion(s) {
      VersionSlotPlaced(r, s);
    } else if OfLatest(s) {
      LatestSlotPlaced(r, s);
    } else {
      FixedSlotPlaced(r, s);
    }
  }

  lemma FixedKeysInjective(r: Release, a: Slot, b: Slot)
    requires Proper(a) && Proper(b) && KeyOf(r, a) == KeyOf(r, b)
    requires !OfVersion(a) && !OfLatest(a) && !OfVersion(b) && !OfLatest(b)
    ensures SameSlot(a, b)
  {
    assert |KeyOf(r, a)| == |KeyOf(r, b)|;
  }

  lemma FileKeysInjective(r: Release, a: Slot, b: Slot, prefix: string)
    requires Proper(a) && Proper(b) && KeyOf(r, a) == KeyOf(r, b)
    requires if OfVersion(a) then OfVersion(b) else OfLatest(a) && OfLatest(b)
    requires prefix == if OfVersion(a) then VersionPrefix(r) else LatestPrefix(r.language)
    ensures SameSlot(a, b)
  {
    assert |KeyOf(r, a)| == |KeyOf(r, b)|;
    if (a.VersionFile? && b.VersionFile?) || (a.LatestFile? && b.LatestFile?) {
      PrefixCancels(prefix, a.file.rel, b.file.rel);
    }
  }

  lemma KeysInjective(r: Release, a: Slot, b: Slot)
    requires ParseVersion(r.language, r.version).Some? && Proper(a) && Proper(b) && KeyOf(r, a) == KeyOf(r, b)
    ensures SameSlot(a, b)
  {
    SlotPlaced(r, a);
    SlotPlaced(r, b);
    if OfVersion(a) {
      FileKeysInjective(r, a, b, VersionPrefix(r));
    } else if OfLatest(a) {
      FileKeysInjective(r, a, b, LatestPrefix(r.language));
    } else {
      FixedKeysInjective(r, a, b);
    }
  }

  /** What a directory listing guarantees: no empty path and no path twice. */
  ghost predicate ValidListing(files: seq<SourceFile>) {
    && (forall i :: 0 <= i < |files| ==> files[i].rel != "")
    && (forall i, j :: 0 <= i < j < |files| ==> files[i].rel != files[j].rel)
  }

  ghost predicate NoSlotTwice(slots: seq<Slot>) {
    forall i, j :: 0 <= i < j < |slots| ==> !SameSlot(slots[i], slots[j])
  }

  lemma NoSlotTwiceAppend(a: seq<Slot>, b: seq<Slot>)
    requires NoSlotTwice(a) && NoSlotTwice(b)
    requires forall x, y :: x in a && y in b ==> !SameSlot(x, y)
    ensures NoSlotTwice(a + b)
  {
    forall i, j | 0 <= i < j < |a + b| ensures !SameSlot((a + b)[i], (a + b)[j]) {
      if i < |a| && |a| <= j { assert a[i] in a && b[j - |a|] in b; }
    }
  }

  lemma {:induction false} FileSlotsOnce(files: seq<SourceFile>, update: bool)
    requires ValidListing(files)
    ensures NoSlotTwice(FileSlots(files, update))
  {
    if files != [] {
      var n := |files| - 1;
      var front, f := files[..n], files[n];
      FileSlotsOnce(front, update);
      forall x, y | x in FileSlots(front, update) && y in SlotsOfFile(f, update) ensures !SameSlot(x, y) {
        FileSlotMembers(front, update, x);
        assert x.file in front && y.file == f;
      }
      NoSlotTwiceAppend(FileSlots(front, update), SlotsOfFile(f, update));
    }
  }

  lemma SlotsOnce(r: Release, update: bool)
    requires ValidListing(r.files)
    ensures NoSlotTwice(Slots(r, update))
  {
    FileSlotsOnce(r.files, update);
    forall x | x in FileSlots(r.files, update) ensures !x.LegacyRedirect? && !x.LatestMarker? {
      FileSlotMembers(r.files, update, x);
    }
    NoSlotTwiceAppend(FileSlots(r.files, update), MovingSlots(update));
    NoSlotTwiceAppend(Front(r, update), if update then [LatestMarker] else []);
  }

  /** The duplicate check never refuses the listing of a directory. */
  lemma NeverDuplicates(r: Release, update: bool)
    requires ParseVersion(r.language, r.version).Some? && ValidListing(r.files)
    ensures DistinctKeys(Manifest(r, update))
  {
    var slots := Slots(r, update);
    SlotsOnce(r, update);
    forall i, j | 0 <= i < j < |slots| ensures KeyOf(r, slots[i]) != KeyOf(r, slots[j]) {
      if KeyOf(r, slots[i]) == KeyOf(r, slots[j]) {
        SlotMembers(r, update, slots[i]);
        SlotMembers(r, update, slots[j]);
        KeysInjective(r, slots[i], slots[j]);
      }
    }
  }
}
