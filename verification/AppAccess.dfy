/** User-owned access profiles: decisions stored relative to an app's defaults. */
module AppAccess {
  import opened Wrappers
  import opened Text
  import opened Catalogs
  import Sorting

  datatype AppAccessDefaults = AppAccessDefaults(configured: bool, listed: seq<string>, listedSet: Option<set<string>>)

  datatype AppAccessProfile = AppAccessProfile(
    subject: string, app: string, disabled: seq<string>, extra: seq<string>,
    legacyEnabled: seq<string>, legacy: bool, defaultsInitialized: bool, updatedAt: int)

  function TrimmedSet(ids: seq<string>): set<string> {
    set id | id in ids && TrimSpace(id) != "" :: TrimSpace(id)
  }

  method BuildTrimmedSet(ids: seq<string>) returns (r: set<string>)
    ensures r == TrimmedSet(ids)
  {
    r := {};
    for i := 0 to |ids|
      invariant r == TrimmedSet(ids[..i])
    {
      assert ids[..i + 1] == ids[..i] + [ids[i]];
      var id := TrimSpace(ids[i]);
      if id != "" {
        r := r + {id};
      }
    }
    assert ids[..|ids|] == ids;
  }

  predicate Includes(d: AppAccessDefaults, op: CatalogOperation) {
    if !d.configured then VisibleByDefault(op)
    else if d.listedSet.Some? then TrimSpace(op.id) in d.listedSet.value
    else exists l :: l in d.listed && TrimSpace(l) == TrimSpace(op.id)
  }

  /** The prebuilt set and the scan it replaces agree on every operation whose id is not blank. */
  lemma ListedSetAgreesWithScan(listed: seq<string>, op: CatalogOperation)
    requires TrimSpace(op.id) != ""
    ensures Includes(AppAccessDefaults(true, listed, Some(TrimmedSet(listed))), op)
            <==> Includes(AppAccessDefaults(true, listed, None), op)
  {
  }

  predicate AllowsID(p: AppAccessProfile, id: string, defaultOn: bool) {
    if p.legacy then id in p.legacyEnabled
    else id in p.extra || (defaultOn && id !in p.disabled)
  }

  /** Without a profile the user has made no choice and everything is allowed. */
  predicate Allows(p: Option<AppAccessProfile>, op: CatalogOperation, d: AppAccessDefaults) {
    p.None? || AllowsID(p.value, TrimSpace(op.id), Includes(d, op))
  }

  /** Without a profile every operation is allowed, whatever the defaults. */
  lemma NoProfileAllows(op: CatalogOperation, d: AppAccessDefaults)
    ensures Allows(None, op, d)
  {
  }

  /** A legacy profile answers by its list; otherwise extra ids are on, disabled ones off, the rest at their default. */
  lemma AnswersExactly(p: AppAccessProfile, id: string, defaultOn: bool)
    ensures p.legacy ==> (AllowsID(p, id, defaultOn) <==> id in p.legacyEnabled)
    ensures !p.legacy && id in p.extra ==> AllowsID(p, id, defaultOn)
    ensures !p.legacy && id !in p.extra && id in p.disabled ==> !AllowsID(p, id, defaultOn)
    ensures !p.legacy && id !in p.extra && id !in p.disabled ==> AllowsID(p, id, defaultOn) == defaultOn
  {
  }

  /** What is on by default: without configuration what is not hidden, with it exactly the listed ids. */
  lemma DefaultsExactly(op: CatalogOperation, listed: seq<string>)
    ensures Includes(AppAccessDefaults(false, listed, None), op) <==> op.visible != Some(false)
    ensures Includes(AppAccessDefaults(true, listed, None), op) <==>
            exists i :: 0 <= i < |listed| && TrimSpace(listed[i]) == TrimSpace(op.id)
  {
  }

  /** A valid profile holds decisions of one kind only. */
  lemma ValidExactly(p: AppAccessProfile)
    ensures Validate(Some(p)) <==>
            forall id :: !(if p.legacy then id in p.disabled + p.extra else id in p.legacyEnabled)
  {
    if Validate(Some(p)) {
    } else if p.legacy {
      assert (p.disabled + p.extra)[0] in p.disabled + p.extra;
    } else {
      assert p.legacyEnabled[0] in p.legacyEnabled;
    }
  }

  predicate Validate(p: Option<AppAccessProfile>) {
    p.None? || if p.value.legacy then p.value.disabled == [] && p.value.extra == [] else p.value.legacyEnabled == []
  }

  // ---- Merging ids ----

  /** `MergeAppAccessIDs` as a function. */
  function MergeIds(a: seq<string>, b: seq<string>): (r: seq<string>)
    ensures StrictlySorted(r)
    ensures forall x :: x in r <==> x in TrimmedSet(a) + TrimmedSet(b)
  {
    SortedUnique(TrimAll(a + b))
  }

  function TrimAll(ids: seq<string>): (r: seq<string>)
    ensures forall x :: x in r <==> x in TrimmedSet(ids)
  {
    if ids == [] then []
    else
      var n := |ids| - 1;
      assert ids == ids[..n] + [ids[n]];
      if TrimSpace(ids[n]) != "" then TrimAll(ids[..n]) + [TrimSpace(ids[n])] else TrimAll(ids[..n])
  }

  method MergeAppAccessIDs(a: seq<string>, b: seq<string>) returns (r: seq<string>)
    ensures r == MergeIds(a, b)
  {
    var ids := a + b;
    var merged := [];
    for i := 0 to |ids|
      invariant merged == TrimAll(ids[..i])
    {
      assert ids[..i + 1][..i] == ids[..i];
      var id := TrimSpace(ids[i]);
      if id != "" {
        merged := merged + [id];
      }
    }
    assert ids[..|ids|] == ids;
    r := SortedUnique(merged);
  }

  function NewRelativeProfile(subject: string, app: string, disabled: seq<string>, extra: seq<string>, at: int)
    : (p: AppAccessProfile)
    ensures Validate(Some(p)) && !p.legacy && p.defaultsInitialized
    ensures p.subject == subject && p.app == app && p.updatedAt == at
    ensures StrictlySorted(p.disabled) && forall id :: id in p.disabled <==> id in TrimmedSet(disabled)
    ensures StrictlySorted(p.extra) && forall id :: id in p.extra <==> id in TrimmedSet(extra)
  {
    AppAccessProfile(subject, app, MergeIds(disabled, []), MergeIds(extra, []), [], false, true, at)
  }

  function NewLegacyProfile(subject: string, app: string, enabled: seq<string>, at: int): (p: AppAccessProfile)
    ensures Validate(Some(p)) && p.legacy && p.defaultsInitialized
    ensures p.subject == subject && p.app == app && p.updatedAt == at
    ensures StrictlySorted(p.legacyEnabled) && forall id :: id in p.legacyEnabled <==> id in TrimmedSet(enabled)
  {
    AppAccessProfile(subject, app, [], [], MergeIds(enabled, []), true, true, at)
  }

  /** Profiles as the constructors leave them: every stored id trimmed and not blank. */
  ghost predicate TidyIds(ids: seq<string>) {
    forall id :: id in ids ==> Trimmed(id) && id != ""
  }

  ghost predicate Tidy(p: AppAccessProfile) {
    TidyIds(p.disabled) && TidyIds(p.extra) && TidyIds(p.legacyEnabled)
  }

  lemma TidySet(ids: seq<string>)
    requires TidyIds(ids)
    ensures forall id :: id in TrimmedSet(ids) <==> id in ids
  {
  }

  lemma MergedIsTidy(a: seq<string>, b: seq<string>)
    ensures TidyIds(MergeIds(a, b))
  {
  }

  // ---- Decisions of one save ----

  function Want(enabled: seq<string>): set<string> {
    set id | id in enabled :: TrimSpace(id)
  }

  function TurnedOff(want: set<string>, d: AppAccessDefaults): CatalogOperation -> bool {
    (op: CatalogOperation) => Includes(d, op) && op.id !in want
  }

  function TurnedOn(want: set<string>, d: AppAccessDefaults): CatalogOperation -> bool {
    (op: CatalogOperation) => !Includes(d, op) && op.id in want
  }

  method AppAccessOverrides(enabled: seq<string>, cat: Option<Catalog>, d: AppAccessDefaults)
    returns (disabled: seq<string>, extra: seq<string>)
    ensures cat.None? ==> disabled == [] && extra == []
    ensures cat.Some? ==> disabled == Sort(PickIds(TurnedOff(Want(enabled), d), cat.value))
                          && extra == Sort(PickIds(TurnedOn(Want(enabled), d), cat.value))
  {
    disabled, extra := [], [];
    if cat.None? {
      return;
    }
    var want := {};
    for i := 0 to |enabled|
      invariant want == Want(enabled[..i])
    {
      assert enabled[..i + 1] == enabled[..i] + [enabled[i]];
      want := want + {TrimSpace(enabled[i])};
    }
    assert enabled[..|enabled|] == enabled;
    var ops := cat.value;
    for i := 0 to |ops|
      invariant disabled == PickIds(TurnedOff(want, d), ops[..i])
      invariant extra == PickIds(TurnedOn(want, d), ops[..i])
    {
      assert ops[..i + 1][..i] == ops[..i];
      var on := ops[i].id in want;
      var isDefault := Includes(d, ops[i]);
      if isDefault && !on {
        disabled := disabled + [ops[i].id];
      } else if !isDefault && on {
        extra := extra + [ops[i].id];
      }
    }
    assert ops[..|ops|] == ops;
    disabled := Sort(disabled);
    extra := Sort(extra);
  }

  // ---- Decisions outside the page ----

  function ListedIds(cat: Option<Catalog>): set<string> {
    if cat.None? then {} else set op | op in cat.value :: op.id
  }

  function Outside(listed: set<string>): string -> bool {
    (id: string) => id !in listed
  }

  /** Static ids a legacy list did not enable and the page does not show. */
  function HiddenOff(listed: set<string>, enabled: seq<string>): CatalogOperation -> bool {
    (op: CatalogOperation) => op.id !in listed && op.id !in enabled
  }

  function KeptDisabled(p: Option<AppAccessProfile>, cat: Option<Catalog>, staticCat: Option<Catalog>): seq<string> {
    if p.None? then []
    else if !p.value.legacy then Sorting.Filter(Outside(ListedIds(cat)), p.value.disabled)
    else if staticCat.None? then []
    else PickIds(HiddenOff(ListedIds(cat), p.value.legacyEnabled), staticCat.value)
  }

  function KeptExtra(p: Option<AppAccessProfile>, cat: Option<Catalog>): seq<string> {
    if p.None? then []
    else Sorting.Filter(Outside(ListedIds(cat)), if p.value.legacy then p.value.legacyEnabled else p.value.extra)
  }

  method KeepOutside(ids: seq<string>, listed: set<string>) returns (kept: seq<string>)
    ensures kept == Sorting.Filter(Outside(listed), ids)
  {
    kept := [];
    for i := 0 to |ids|
      invariant kept == Sorting.Filter(Outside(listed), ids[..i])
    {
      Sorting.FilterNext(Outside(listed), ids, i);
      if ids[i] !in listed {
        kept := kept + [ids[i]];
      }
    }
    assert ids[..|ids|] == ids;
  }

  method OverridesOutside(p: Option<AppAccessProfile>, cat: Option<Catalog>, staticCat: Option<Catalog>)
    returns (disabled: seq<string>, extra: seq<string>)
    ensures disabled == KeptDisabled(p, cat, staticCat) && extra == KeptExtra(p, cat)
  {
    disabled, extra := [], [];
    if p.None? {
      return;
    }
    var listed := ListedIds(cat);
    if !p.value.legacy {
      disabled := KeepOutside(p.value.disabled, listed);
      extra := KeepOutside(p.value.extra, listed);
      return;
    }
    extra := KeepOutside(p.value.legacyEnabled, listed);
    if staticCat.Some? {
      var ops := staticCat.value;
      for i := 0 to |ops|
        invariant disabled == PickIds(HiddenOff(listed, p.value.legacyEnabled), ops[..i])
      {
        assert ops[..i + 1][..i] == ops[..i];
        if ops[i].id !in listed && ops[i].id !in p.value.legacyEnabled {
          disabled := disabled + [ops[i].id];
        }
      }
      assert ops[..|ops|] == ops;
    }
  }

  // ---- One save ----

  datatype SaveRequest = SaveRequest(page: Catalog, enabled: seq<string>, at: int)

  /** What a save writes: the page's decisions merged with those about everything the page does not list. */
  function Save(p: Option<AppAccessProfile>, subject: string, app: string, req: SaveRequest,
                staticCat: Option<Catalog>, d: AppAccessDefaults): (r: AppAccessProfile)
    ensures !r.legacy && Tidy(r)
  {
    var want := Want(req.enabled);
    var disabled := MergeIds(Sort(PickIds(TurnedOff(want, d), req.page)), KeptDisabled(p, Some(req.page), staticCat));
    var extra := MergeIds(Sort(PickIds(TurnedOn(want, d), req.page)), KeptExtra(p, Some(req.page)));
    NewRelativeProfile(subject, app, disabled, extra, req.at)
  }

  method SaveAppAccess(p: Option<AppAccessProfile>, subject: string, app: string, req: SaveRequest,
                       staticCat: Option<Catalog>, d: AppAccessDefaults) returns (r: AppAccessProfile)
    ensures r == Save(p, subject, app, req, staticCat, d)
  {
    var disabled, extra := AppAccessOverrides(req.enabled, Some(req.page), d);
    var keptDisabled, keptExtra := OverridesOutside(p, Some(req.page), staticCat);
    disabled := MergeAppAccessIDs(disabled, keptDisabled);
    extra := MergeAppAccessIDs(extra, keptExtra);
    r := NewRelativeProfile(subject, app, disabled, extra, req.at);
  }

  /** Each id has one default, whatever page lists it. */
  ghost predicate DefaultsAre(cat: Catalog, d: AppAccessDefaults, dflt: string -> bool) {
    forall op :: op in cat ==> Includes(d, op) == dflt(op.id)
  }

  lemma MergedMembers(a: seq<string>, b: seq<string>)
    requires TidyIds(a) && TidyIds(b)
    ensures forall id :: id in MergeIds(a, b) <==> id in a || id in b
    ensures forall id :: id in MergeIds(MergeIds(a, b), []) <==> id in a || id in b
  {
    TidySet(a);
    TidySet(b);
    MergedIsTidy(a, b);
    TidySet(MergeIds(a, b));
  }

  lemma PageIds(page: Catalog, want: set<string>, d: AppAccessDefaults, dflt: string -> bool, id: string)
    requires ValidIds(page) && DefaultsAre(page, d, dflt)
    ensures var off, on := Sort(PickIds(TurnedOff(want, d), page)), Sort(PickIds(TurnedOn(want, d), page));
            && TidyIds(off) && TidyIds(on)
            && (id in off <==> Lists(page, id) && dflt(id) && id !in want)
            && (id in on <==> Lists(page, id) && !dflt(id) && id in want)
  {
  }

  lemma KeptIds(p: Option<AppAccessProfile>, page: Catalog, staticCat: Option<Catalog>, id: string)
    requires (staticCat.Some? ==> ValidIds(staticCat.value)) && (p.Some? ==> Tidy(p.value))
    ensures TidyIds(KeptDisabled(p, Some(page), staticCat)) && TidyIds(KeptExtra(p, Some(page)))
    ensures Lists(page, id) ==> id !in KeptDisabled(p, Some(page), staticCat) && id !in KeptExtra(p, Some(page))
  {
  }

  /** What a save stores, id by id. */
  lemma SavedIds(p: Option<AppAccessProfile>, subject: string, app: string, req: SaveRequest,
                 staticCat: Option<Catalog>, d: AppAccessDefaults, dflt: string -> bool, id: string)
    requires ValidIds(req.page) && DefaultsAre(req.page, d, dflt)
    requires (staticCat.Some? ==> ValidIds(staticCat.value)) && (p.Some? ==> Tidy(p.value))
    ensures var r := Save(p, subject, app, req, staticCat, d);
            if Lists(req.page, id)
            then (id in r.disabled <==> dflt(id) && id !in Want(req.enabled))
                 && (id in r.extra <==> !dflt(id) && id in Want(req.enabled))
            else (id in r.disabled <==> id in KeptDisabled(p, Some(req.page), staticCat))
                 && (id in r.extra <==> id in KeptExtra(p, Some(req.page)))
  {
    var want := Want(req.enabled);
    var off, on := Sort(PickIds(TurnedOff(want, d), req.page)), Sort(PickIds(TurnedOn(want, d), req.page));
    var keptOff, keptOn := KeptDisabled(p, Some(req.page), staticCat), KeptExtra(p, Some(req.page));
    PageIds(req.page, want, d, dflt, id);
    KeptIds(p, req.page, staticCat, id);
    MergedMembers(off, keptOff);
    MergedMembers(on, keptOn);
  }

  /** An id the page lists ends up exactly as the user wanted it. */
  lemma SaveDecidesListed(p: Option<AppAccessProfile>, subject: string, app: string, req: SaveRequest,
                          staticCat: Option<Catalog>, d: AppAccessDefaults, dflt: string -> bool, id: string)
    requires ValidIds(req.page) && DefaultsAre(req.page, d, dflt)
    requires (staticCat.Some? ==> ValidIds(staticCat.value)) && (p.Some? ==> Tidy(p.value))
    requires Lists(req.page, id)
    ensures AllowsID(Save(p, subject, app, req, staticCat, d), id, dflt(id)) <==> id in Want(req.enabled)
  {
    SavedIds(p, subject, app, req, staticCat, d, dflt, id);
  }

  /** An id the page does not list keeps its decision, under either default. */
  lemma SaveKeepsUnlisted(p: AppAccessProfile, subject: string, app: string, req: SaveRequest,
                          staticCat: Option<Catalog>, d: AppAccessDefaults, dflt: string -> bool,
                          id: string, defaultOn: bool)
    requires ValidIds(req.page) && DefaultsAre(req.page, d, dflt) && (staticCat.Some? ==> ValidIds(staticCat.value))
    requires Tidy(p) && !p.legacy && !Lists(req.page, id)
    ensures AllowsID(Save(Some(p), subject, app, req, staticCat, d), id, defaultOn) == AllowsID(p, id, defaultOn)
  {
    SavedIds(Some(p), subject, app, req, staticCat, d, dflt, id);
  }

  /**
   A save over a legacy profile: every id outside the page that the static
   catalog or the legacy list names keeps its legacy answer under either default.
   */
  lemma SaveKeepsLegacyAnswer(p: AppAccessProfile, subject: string, app: string, req: SaveRequest,
                              staticCat: Option<Catalog>, d: AppAccessDefaults, dflt: string -> bool,
                              id: string, defaultOn: bool)
    requires ValidIds(req.page) && DefaultsAre(req.page, d, dflt) && (staticCat.Some? ==> ValidIds(staticCat.value))
    requires Tidy(p) && p.legacy && !Lists(req.page, id)
    requires id in p.legacyEnabled || (staticCat.Some? && Lists(staticCat.value, id))
    ensures AllowsID(Save(Some(p), subject, app, req, staticCat, d), id, defaultOn) == AllowsID(p, id, defaultOn)
  {
    SavedIds(Some(p), subject, app, req, staticCat, d, dflt, id);
  }

  // ---- Runs of saves ----

  ghost predicate ValidRun(saves: seq<SaveRequest>, d: AppAccessDefaults, dflt: string -> bool) {
    forall i :: 0 <= i < |saves| ==> ValidIds(saves[i].page) && DefaultsAre(saves[i].page, d, dflt)
  }

  function AfterSaves(p: AppAccessProfile, saves: seq<SaveRequest>, staticCat: Option<Catalog>, d: AppAccessDefaults)
    : (r: AppAccessProfile)
    ensures r.legacy <==> p.legacy && saves == []
    ensures Tidy(p) ==> Tidy(r)
  {
    if saves == [] then p
    else
      var before := AfterSaves(p, saves[..|saves| - 1], staticCat, d);
      Save(Some(before), p.subject, p.app, saves[|saves| - 1], staticCat, d)
  }

  /** What the last save whose page listed `id` wanted, or `initially` if none listed it. */
  ghost function LastWish(saves: seq<SaveRequest>, id: string, initially: bool): bool {
    if saves == [] then initially
    else
      var last := saves[|saves| - 1];
      if Lists(last.page, id) then id in Want(last.enabled) else LastWish(saves[..|saves| - 1], id, initially)
  }

  /** One more save over a relative profile. */
  lemma SaveStep(p: AppAccessProfile, subject: string, app: string, req: SaveRequest,
                 staticCat: Option<Catalog>, d: AppAccessDefaults, dflt: string -> bool, id: string)
    requires ValidIds(req.page) && DefaultsAre(req.page, d, dflt) && (staticCat.Some? ==> ValidIds(staticCat.value))
    requires Tidy(p) && !p.legacy
    ensures AllowsID(Save(Some(p), subject, app, req, staticCat, d), id, dflt(id))
            == if Lists(req.page, id) then id in Want(req.enabled) else AllowsID(p, id, dflt(id))
  {
    if Lists(req.page, id) {
      SaveDecidesListed(Some(p), subject, app, req, staticCat, d, dflt, id);
    } else {
      SaveKeepsUnlisted(p, subject, app, req, staticCat, d, dflt, id, dflt(id));
    }
  }

  /**
   Over any run of saves, with pages listing any part of the operations, an
   operation is allowed exactly when the last save whose page listed it wanted
   it on; one never listed keeps its initial answer.
   */
  lemma {:induction false} RunOfSaves(p: AppAccessProfile, saves: seq<SaveRequest>, staticCat: Option<Catalog>,
                                      d: AppAccessDefaults, dflt: string -> bool, id: string)
    requires !p.legacy && Tidy(p) && ValidRun(saves, d, dflt) && (staticCat.Some? ==> ValidIds(staticCat.value))
    ensures AllowsID(AfterSaves(p, saves, staticCat, d), id, dflt(id)) == LastWish(saves, id, AllowsID(p, id, dflt(id)))
  {
    if saves != [] {
      var n := |saves| - 1;
      var before := AfterSaves(p, saves[..n], staticCat, d);
      RunOfSaves(p, saves[..n], staticCat, d, dflt, id);
      SaveStep(before, p.subject, p.app, saves[n], staticCat, d, dflt, id);
    }
  }

  /** The ids a save over a legacy profile has a decision to carry over for. */
  ghost predicate Named(p: AppAccessProfile, staticCat: Option<Catalog>, id: string) {
    id in p.legacyEnabled || (staticCat.Some? && Lists(staticCat.value, id))
  }

  /** What the first save makes of a legacy answer. */
  lemma FirstSaveOverLegacy(p: AppAccessProfile, subject: string, app: string, req: SaveRequest,
                            staticCat: Option<Catalog>, d: AppAccessDefaults, dflt: string -> bool, id: string)
    requires ValidIds(req.page) && DefaultsAre(req.page, d, dflt) && (staticCat.Some? ==> ValidIds(staticCat.value))
    requires Tidy(p) && p.legacy
    ensures AllowsID(Save(Some(p), subject, app, req, staticCat, d), id, dflt(id))
            == if Lists(req.page, id) then id in Want(req.enabled)
               else if Named(p, staticCat, id) then id in p.legacyEnabled
               else dflt(id)
  {
    SavedIds(Some(p), subject, app, req, staticCat, d, dflt, id);
  }

  /**
   A run of saves from a profile kept legacy: an operation follows the last page
   that listed it; before that it keeps its legacy answer if the list or the
   static catalog names it, and otherwise follows its default from the first
   save on.
   */
  lemma {:induction false} LegacyRunOfSaves(p: AppAccessProfile, saves: seq<SaveRequest>, staticCat: Option<Catalog>,
                                            d: AppAccessDefaults, dflt: string -> bool, id: string)
    requires p.legacy && Tidy(p) && ValidRun(saves, d, dflt) && (staticCat.Some? ==> ValidIds(staticCat.value))
    ensures AllowsID(AfterSaves(p, saves, staticCat, d), id, dflt(id))
            == LastWish(saves, id, if saves == [] || Named(p, staticCat, id) then id in p.legacyEnabled else dflt(id))
  {
    if saves != [] {
      var n := |saves| - 1;
      if n == 0 {
        FirstSaveOverLegacy(p, p.subject, p.app, saves[0], staticCat, d, dflt, id);
      } else {
        LegacyRunOfSaves(p, saves[..n], staticCat, d, dflt, id);
        SaveStep(AfterSaves(p, saves[..n], staticCat, d), p.subject, p.app, saves[n], staticCat, d, dflt, id);
      }
    }
  }

  /** Saves that never list an operation change its legacy answer exactly when it is on by default and named nowhere. */
  lemma LegacyAnswerChanges(p: AppAccessProfile, saves: seq<SaveRequest>, staticCat: Option<Catalog>,
                            d: AppAccessDefaults, dflt: string -> bool, id: string)
    requires p.legacy && Tidy(p) && ValidRun(saves, d, dflt) && (staticCat.Some? ==> ValidIds(staticCat.value))
    requires saves != [] && forall i :: 0 <= i < |saves| ==> !Lists(saves[i].page, id)
    ensures AllowsID(AfterSaves(p, saves, staticCat, d), id, dflt(id)) != AllowsID(p, id, dflt(id))
            <==> dflt(id) && !Named(p, staticCat, id)
  {
    LegacyRunOfSaves(p, saves, staticCat, d, dflt, id);
    NeverListed(saves, id, if Named(p, staticCat, id) then id in p.legacyEnabled else dflt(id));
  }

  lemma {:induction false} NeverListed(saves: seq<SaveRequest>, id: string, initially: bool)
    requires forall i :: 0 <= i < |saves| ==> !Lists(saves[i].page, id)
    ensures LastWish(saves, id, initially) == initially
  {
    if saves != [] { NeverListed(saves[..|saves| - 1], id, initially); }
  }

  ghost predicate Disjoint(p: AppAccessProfile) {
    forall id :: !(id in p.disabled && id in p.extra)
  }

  /** No run of saves records an id as both switched off and switched on, unless the profile began so. */
  lemma {:induction false} RunKeepsDisjoint(p: AppAccessProfile, saves: seq<SaveRequest>, staticCat: Option<Catalog>,
                                            d: AppAccessDefaults, dflt: string -> bool)
    requires Tidy(p) && ValidRun(saves, d, dflt) && (staticCat.Some? ==> ValidIds(staticCat.value))
    requires Disjoint(p) || p.legacy
    ensures saves != [] || Disjoint(p) ==> Disjoint(AfterSaves(p, saves, staticCat, d))
  {
    if saves != [] {
      var n := |saves| - 1;
      var before := AfterSaves(p, saves[..n], staticCat, d);
      RunKeepsDisjoint(p, saves[..n], staticCat, d, dflt);
      var after := AfterSaves(p, saves, staticCat, d);
      forall id ensures !(id in after.disabled && id in after.extra) {
        SavedIds(Some(before), p.subject, p.app, saves[n], staticCat, d, dflt, id);
      }
    }
  }

  // ---- Catalogs with ids that are not trimmed ----

  /** Some operation with property `pick` has the trimmed id `t`. */
  ghost predicate Picks(pick: CatalogOperation -> bool, cat: Catalog, t: string) {
    exists o :: o in cat && pick(o) && TrimSpace(o.id) == t
  }

  lemma PickedIds(pick: CatalogOperation -> bool, cat: Catalog, t: string)
    requires t != ""
    ensures t in TrimmedSet(Sort(PickIds(pick, cat))) <==> Picks(pick, cat, t)
  {
    var ids := Sort(PickIds(pick, cat));
    if o :| o in cat && pick(o) && TrimSpace(o.id) == t { assert o.id in ids; }
    if id :| id in ids && TrimSpace(id) == t {
      var o :| o in cat && pick(o) && o.id == id;
    }
  }

  lemma MergedTwice(a: seq<string>, b: seq<string>, t: string)
    ensures t in MergeIds(MergeIds(a, b), []) <==> t in TrimmedSet(a) || t in TrimmedSet(b)
  {
    MergedIsTidy(a, b);
    TidySet(MergeIds(a, b));
  }

  /** What a save stores under a trimmed id, whatever the page, the profile and the static catalog hold. */
  lemma StoredUnder(p: Option<AppAccessProfile>, subject: string, app: string, req: SaveRequest,
                    staticCat: Option<Catalog>, d: AppAccessDefaults, t: string)
    requires t != ""
    ensures var r, want := Save(p, subject, app, req, staticCat, d), Want(req.enabled);
            && (t in r.disabled <==> Picks(TurnedOff(want, d), req.page, t)
                                     || t in TrimmedSet(KeptDisabled(p, Some(req.page), staticCat)))
            && (t in r.extra <==> Picks(TurnedOn(want, d), req.page, t)
                                  || t in TrimmedSet(KeptExtra(p, Some(req.page))))
  {
    var off, on := TurnedOff(Want(req.enabled), d), TurnedOn(Want(req.enabled), d);
    PickedIds(off, req.page, t);
    PickedIds(on, req.page, t);
    MergedTwice(Sort(PickIds(off, req.page)), KeptDisabled(p, Some(req.page), staticCat), t);
    MergedTwice(Sort(PickIds(on, req.page)), KeptExtra(p, Some(req.page)), t);
    var disabled := MergeIds(Sort(PickIds(off, req.page)), KeptDisabled(p, Some(req.page), staticCat));
    var extra := MergeIds(Sort(PickIds(on, req.page)), KeptExtra(p, Some(req.page)));
    assert Save(p, subject, app, req, staticCat, d) == NewRelativeProfile(subject, app, disabled, extra, req.at);
  }

  /** No other operation of the page has the trimmed id of `op`. */
  ghost predicate AloneOnPage(page: Catalog, op: CatalogOperation) {
    op in page && forall o :: o in page && TrimSpace(o.id) == TrimSpace(op.id) ==> o == op
  }

  lemma AlonePicks(pick: CatalogOperation -> bool, page: Catalog, op: CatalogOperation)
    requires AloneOnPage(page, op)
    ensures Picks(pick, page, TrimSpace(op.id)) <==> pick(op)
  {
  }

  /** The answer after any save: what the page decided under the trimmed id and what was carried over. */
  lemma SavedAnswer(p: Option<AppAccessProfile>, subject: string, app: string, req: SaveRequest,
                    staticCat: Option<Catalog>, d: AppAccessDefaults, op: CatalogOperation)
    ensures var r, want, t := Save(p, subject, app, req, staticCat, d), Want(req.enabled), TrimSpace(op.id);
            Allows(Some(r), op, d)
            <==> if t == "" then Includes(d, op)
                 else || Picks(TurnedOn(want, d), req.page, t)
                      || t in TrimmedSet(KeptExtra(p, Some(req.page)))
                      || (&& Includes(d, op) && !Picks(TurnedOff(want, d), req.page, t)
                          && t !in TrimmedSet(KeptDisabled(p, Some(req.page), staticCat)))
  {
    var t := TrimSpace(op.id);
    if t != "" { StoredUnder(p, subject, app, req, staticCat, d, t); }
  }

  /**
   Why ids must be trimmed: a save looks raw ids up among trimmed wishes, and
   carries over what the page does not list by raw id. It honours the wish about
   an operation exactly in these cases, by what it carries over under the trimmed
   id: a raw id that is not trimmed counts as never wanted, so only a carried
   choice to switch it on decides; a trimmed one is overridden only by what is
   carried from an id that is not; a blank one follows its default.
   */
  lemma SaveHonoursExactly(p: Option<AppAccessProfile>, subject: string, app: string, req: SaveRequest,
                           staticCat: Option<Catalog>, d: AppAccessDefaults, op: CatalogOperation)
    requires AloneOnPage(req.page, op)
    ensures var r, t := Save(p, subject, app, req, staticCat, d), TrimSpace(op.id);
            var wanted := t in Want(req.enabled);
            var carriedOn := t in TrimmedSet(KeptExtra(p, Some(req.page)));
            var carriedOff := t in TrimmedSet(KeptDisabled(p, Some(req.page), staticCat));
            (Allows(Some(r), op, d) <==> wanted)
            <==> if t == "" then Includes(d, op) <==> wanted
                 else if !Trimmed(op.id) then carriedOn <==> wanted
                 else if wanted then carriedOn || !carriedOff || !Includes(d, op)
                 else !carriedOn
  {
    var want := Want(req.enabled);
    SavedAnswer(p, subject, app, req, staticCat, d, op);
    AlonePicks(TurnedOff(want, d), req.page, op);
    AlonePicks(TurnedOn(want, d), req.page, op);
    assert op.id in want ==> Trimmed(op.id);
    assert Trimmed(op.id) ==> op.id == TrimSpace(op.id);
  }

  /** With a tidy profile and a valid static catalog, every trimmed id is honoured. */
  lemma TrimmedIsHonoured(p: Option<AppAccessProfile>, subject: string, app: string, req: SaveRequest,
                          staticCat: Option<Catalog>, d: AppAccessDefaults, op: CatalogOperation)
    requires AloneOnPage(req.page, op) && op.id != "" && Trimmed(op.id)
    requires (staticCat.Some? ==> ValidIds(staticCat.value)) && (p.Some? ==> Tidy(p.value))
    ensures Allows(Some(Save(p, subject, app, req, staticCat, d)), op, d) <==> op.id in Want(req.enabled)
  {
    SaveHonoursExactly(p, subject, app, req, staticCat, d, op);
    assert Lists(req.page, op.id);
    KeptIds(p, req.page, staticCat, op.id);
    TidySet(KeptDisabled(p, Some(req.page), staticCat));
    TidySet(KeptExtra(p, Some(req.page)));
  }

  const PADDED := CatalogOperation(" t", Some(false), [], "")

  const NO_DEFAULTS := AppAccessDefaults(false, [], None)

  lemma PaddedTrims()
    ensures TrimSpace(" t") == "t" && !Trimmed(" t") && TrimSpace("t") == "t"
  {
    assert " t"[1..] == "t";
  }

  /** A page whose id has a leading space: the first save drops the wish to switch it on. */
  lemma FirstSaveDropsWish(subject: string, app: string)
    ensures var req := SaveRequest([PADDED], ["t"], 0);
            "t" in Want(req.enabled)
            && !Allows(Some(Save(None, subject, app, req, None, NO_DEFAULTS)), PADDED, NO_DEFAULTS)
  {
    PaddedTrims();
    var req := SaveRequest([PADDED], ["t"], 0);
    assert "t" in Want(req.enabled);
    SaveHonoursExactly(None, subject, app, req, None, NO_DEFAULTS, PADDED);
  }

  /** A later save, over a profile that has it on, drops the wish to switch it off. */
  lemma LaterSaveKeepsOn(subject: string, app: string)
    ensures var req := SaveRequest([PADDED], [], 0);
            var p := AppAccessProfile(subject, app, [], ["t"], [], false, true, 0);
            "t" !in Want(req.enabled)
            && Allows(Some(Save(Some(p), subject, app, req, None, NO_DEFAULTS)), PADDED, NO_DEFAULTS)
  {
    PaddedTrims();
    var req := SaveRequest([PADDED], [], 0);
    var p := AppAccessProfile(subject, app, [], ["t"], [], false, true, 0);
    assert Outside(ListedIds(Some(req.page)))("t");
    assert "t" in KeptExtra(Some(p), Some(req.page));
    assert "t" in TrimmedSet(KeptExtra(Some(p), Some(req.page)));
    SaveHonoursExactly(Some(p), subject, app, req, None, NO_DEFAULTS, PADDED);
  }

  // ---- Reading a profile back ----

  function AllowedIs(p: Option<AppAccessProfile>, d: AppAccessDefaults, allowed: bool): CatalogOperation -> bool {
    (op: CatalogOperation) => Allows(p, op, d) == allowed
  }

  method CatalogOperations(p: Option<AppAccessProfile>, cat: Option<Catalog>, d: AppAccessDefaults, allowed: bool)
    returns (ids: seq<string>)
    ensures ids == if cat.None? then [] else Sort(PickIds(AllowedIs(p, d, allowed), cat.value))
  {
    ids := [];
    if cat.None? {
      return;
    }
    var ops := cat.value;
    for i := 0 to |ops|
      invariant ids == PickIds(AllowedIs(p, d, allowed), ops[..i])
    {
      assert ops[..i + 1][..i] == ops[..i];
      if Allows(p, ops[i], d) == allowed {
        ids := ids + [ops[i].id];
      }
    }
    assert ops[..|ops|] == ops;
    ids := Sort(ids);
  }

  /** Round trip: right after a save the page reads back as enabled exactly the operations the user sent. */
  lemma {:induction false} SaveReadsBack(p: Option<AppAccessProfile>, subject: string, app: string, req: SaveRequest,
                                         staticCat: Option<Catalog>, d: AppAccessDefaults, dflt: string -> bool, n: nat)
    requires ValidIds(req.page) && DefaultsAre(req.page, d, dflt) && n <= |req.page|
    requires (staticCat.Some? ==> ValidIds(staticCat.value)) && (p.Some? ==> Tidy(p.value))
    ensures var r := Some(Save(p, subject, app, req, staticCat, d));
            PickIds(AllowedIs(r, d, true), req.page[..n])
            == PickIds((op: CatalogOperation) => op.id in Want(req.enabled), req.page[..n])
  {
    if n > 0 {
      var op := req.page[n - 1];
      assert req.page[..n][..n - 1] == req.page[..n - 1];
      SaveReadsBack(p, subject, app, req, staticCat, d, dflt, n - 1);
      assert op in req.page && Lists(req.page, op.id);
      SaveDecidesListed(p, subject, app, req, staticCat, d, dflt, op.id);
    }
  }
}
