/** Reading a legacy allow-list as decisions relative to defaults, with the help of operation history. */
module LegacyAccess {
  import opened Wrappers
  import opened Text
  import opened Catalogs
  import opened AppAccess

  const GRAPHQL_CAPABILITY := "graphql"

  datatype LegacyDecision = FollowsDefault | OptOut | OptIn

  /** What a legacy list said about one id; outside the catalog any choice is carried over. */
  function Classify(id: string, inCatalog: map<string, CatalogOperation>, d: AppAccessDefaults,
                    enabled: bool, existed: bool): LegacyDecision
  {
    if id !in inCatalog then
      if enabled then OptIn
      else if existed || id == GRAPHQL_CAPABILITY then OptOut
      else FollowsDefault
    else if Includes(d, inCatalog[id]) && !enabled && existed then OptOut
    else if !Includes(d, inCatalog[id]) && enabled then OptIn
    else FollowsDefault
  }

  /** Operations by trimmed id; of several with one id the last stays. */
  function ById(cat: Catalog): (m: map<string, CatalogOperation>)
    ensures forall id :: id in m ==> m[id] in cat && TrimSpace(m[id].id) == id
    ensures forall op :: op in cat ==> TrimSpace(op.id) in m
  {
    if cat == [] then map[]
    else
      var n := |cat| - 1;
      assert cat == cat[..n] + [cat[n]];
      ById(cat[..n])[TrimSpace(cat[n].id) := cat[n]]
  }

  function ConsideredIds(cat: Catalog, enabled: set<string>, existed: set<string>): set<string> {
    ById(cat).Keys + enabled + existed + {GRAPHQL_CAPABILITY}
  }

  function DecisionOf(cat: Catalog, d: AppAccessDefaults, enabled: set<string>, existed: set<string>, id: string)
    : LegacyDecision
  {
    Classify(id, ById(cat), d, id in enabled, id in existed)
  }

  /** `ids` is the strictly sorted list of the considered ids that got a decision. */
  ghost predicate Collects(ids: seq<string>, considered: set<string>, decision: string -> LegacyDecision,
                           which: LegacyDecision)
  {
    StrictlySorted(ids) && forall id :: id in ids <==> id in considered && decision(id) == which
  }

  ghost predicate IsConversion(p: AppAccessProfile, cat: Catalog, d: AppAccessDefaults,
                               enabled: set<string>, existed: set<string>, r: AppAccessProfile)
  {
    && r == p.(legacy := false, legacyEnabled := [], disabled := r.disabled, extra := r.extra)
    && var decision := (id: string) => DecisionOf(cat, d, enabled, existed, id);
       var considered := ConsideredIds(cat, enabled, existed);
       Collects(r.disabled, considered, decision, OptOut) && Collects(r.extra, considered, decision, OptIn)
  }

  lemma ByIdNext(cat: Catalog, i: nat)
    requires i < |cat|
    ensures ById(cat[..i + 1]) == ById(cat[..i])[TrimSpace(cat[i].id) := cat[i]]
  {
    assert cat[..i + 1][..i] == cat[..i];
  }

  method IndexCatalog(cat: Catalog) returns (inCatalog: map<string, CatalogOperation>)
    ensures inCatalog == ById(cat)
  {
    inCatalog := map[];
    for i := 0 to |cat|
      invariant inCatalog == ById(cat[..i])
    {
      ByIdNext(cat, i);
      inCatalog := inCatalog[TrimSpace(cat[i].id) := cat[i]];
    }
    assert cat[..|cat|] == cat;
  }

  /** The conversion visits the ids in an arbitrary order, as Go visits a map. */
  method ConvertLegacy(p: AppAccessProfile, cat: Catalog, d: AppAccessDefaults,
                       enabled: set<string>, existed: set<string>)
    returns (r: AppAccessProfile)
    ensures IsConversion(p, cat, d, enabled, existed, r)
  {
    var inCatalog := IndexCatalog(cat);
    var ids := inCatalog.Keys + enabled + existed + {GRAPHQL_CAPABILITY};
    var disabled, extra, rest := [], [], ids;
    while rest != {}
      invariant rest <= ids
      invariant forall id :: id in disabled <==> id in ids - rest && DecisionOf(cat, d, enabled, existed, id) == OptOut
      invariant forall id :: id in extra <==> id in ids - rest && DecisionOf(cat, d, enabled, existed, id) == OptIn
    {
      var id :| id in rest;
      rest := rest - {id};
      match Classify(id, inCatalog, d, id in enabled, id in existed)
      case OptOut => disabled := disabled + [id];
      case OptIn => extra := extra + [id];
      case FollowsDefault =>
    }
    r := p.(legacy := false, legacyEnabled := [], disabled := SortedUnique(disabled), extra := SortedUnique(extra));
  }

  /** Whatever order the ids were visited in, there is only one conversion. */
  lemma ConversionUnique(p: AppAccessProfile, cat: Catalog, d: AppAccessDefaults, enabled: set<string>,
                         existed: set<string>, r: AppAccessProfile, r': AppAccessProfile)
    requires IsConversion(p, cat, d, enabled, existed, r) && IsConversion(p, cat, d, enabled, existed, r')
    ensures r == r'
  {
    StrictlySortedUnique(r.disabled, r'.disabled);
    StrictlySortedUnique(r.extra, r'.extra);
  }

  // ---- The conversion is exact ----

  /** No two operations of a catalog share an id. */
  ghost predicate DistinctIds(cat: Catalog) {
    forall o, o' :: o in cat && o' in cat && TrimSpace(o.id) == TrimSpace(o'.id) ==> o == o'
  }

  /**
   A converted profile allows an operation of the catalog exactly when the list
   enabled it, or it is on by default and did not exist when the list was saved.
   */
  lemma ConversionExact(p: AppAccessProfile, cat: Catalog, d: AppAccessDefaults, enabled: set<string>,
                        existed: set<string>, r: AppAccessProfile, op: CatalogOperation)
    requires IsConversion(p, cat, d, enabled, existed, r) && DistinctIds(cat) && op in cat
    ensures Allows(Some(r), op, d)
            <==> TrimSpace(op.id) in enabled || (Includes(d, op) && TrimSpace(op.id) !in existed)
  {
    var id := TrimSpace(op.id);
    assert ById(cat)[id] == op;
    assert id in ConsideredIds(cat, enabled, existed);
  }

  /** Outside the catalog every considered id is allowed exactly when the list enabled it, whatever its default. */
  lemma ConversionCarriesOutside(p: AppAccessProfile, cat: Catalog, d: AppAccessDefaults, enabled: set<string>,
                                 existed: set<string>, r: AppAccessProfile, id: string, defaultOn: bool)
    requires IsConversion(p, cat, d, enabled, existed, r)
    requires id !in ById(cat) && id in enabled + existed + {"graphql"}
    ensures AllowsID(r, id, defaultOn) <==> id in enabled
  {
    assert id in ConsideredIds(cat, enabled, existed);
  }

  // ---- Resolving a stored profile ----

  datatype History = NoHistory | LookupFailed | UnknownApp | Known(ids: seq<string>)

  datatype KeptReason = Converted | NotLegacy | NoCatalog | KeptNoHistory | HistoryError | HistoryIncomplete

  ghost predicate HistoryCovers(cat: Catalog, enabled: set<string>, existed: set<string>) {
    forall op :: op in cat && TrimSpace(op.id) in enabled ==> TrimSpace(op.id) in existed
  }

  method HistoryCoversEnabled(cat: Catalog, enabled: set<string>, existed: set<string>) returns (covers: bool)
    ensures covers <==> HistoryCovers(cat, enabled, existed)
  {
    for i := 0 to |cat|
      invariant HistoryCovers(cat[..i], enabled, existed)
    {
      var id := TrimSpace(cat[i].id);
      if id in enabled && id !in existed {
        assert cat[i] in cat;
        return false;
      }
      assert cat[..i + 1] == cat[..i] + [cat[i]];
    }
    assert cat[..|cat|] == cat;
    return true;
  }

  /** Why a profile is converted or kept. */
  ghost function ReasonFor(history: History, p: Option<AppAccessProfile>, cat: Option<Catalog>): KeptReason {
    if p.None? || !p.value.legacy then NotLegacy
    else if cat.None? then NoCatalog
    else match history
      case NoHistory => KeptNoHistory
      case LookupFailed => HistoryError
      case UnknownApp => KeptNoHistory
      case Known(ids) =>
        if HistoryCovers(cat.value, TrimmedSet(p.value.legacyEnabled), TrimmedSet(ids)) then Converted
        else HistoryIncomplete
  }

  /** Converted exactly if legacy, with a catalog, and with a history that names every enabled operation of it. */
  lemma ConvertsExactly(history: History, p: Option<AppAccessProfile>, cat: Option<Catalog>)
    ensures ReasonFor(history, p, cat) == Converted <==>
            && p.Some? && p.value.legacy && cat.Some? && history.Known?
            && forall op :: op in cat.value && TrimSpace(op.id) in TrimmedSet(p.value.legacyEnabled) ==>
                 TrimSpace(op.id) in TrimmedSet(history.ids)
    ensures p.Some? && p.value.legacy && cat.Some? && history.LookupFailed? ==>
              ReasonFor(history, p, cat) == HistoryError
    ensures p.Some? && p.value.legacy && cat.Some? && (history.NoHistory? || history.UnknownApp?) ==>
              ReasonFor(history, p, cat) == KeptNoHistory
    ensures p.Some? && p.value.legacy && cat.None? ==> ReasonFor(history, p, cat) == NoCatalog
    ensures p.None? || !p.value.legacy ==> ReasonFor(history, p, cat) == NotLegacy
  {
  }

  method ResolveLegacyProfile(history: History, p: Option<AppAccessProfile>, cat: Option<Catalog>, d: AppAccessDefaults)
    returns (r: Option<AppAccessProfile>, reason: KeptReason)
    ensures reason == ReasonFor(history, p, cat)
    ensures reason != Converted ==> r == p
    ensures reason == Converted ==>
              && r.Some?
              && IsConversion(p.value, cat.value, d,
                              TrimmedSet(p.value.legacyEnabled), TrimmedSet(history.ids), r.value)
  {
    if p.None? || !p.value.legacy {
      return p, NotLegacy;
    }
    if cat.None? {
      return p, NoCatalog;
    }
    match history
    case NoHistory => return p, KeptNoHistory;
    case LookupFailed => return p, HistoryError;
    case UnknownApp => return p, KeptNoHistory;
    case Known(ids) =>
      var enabled := BuildTrimmedSet(p.value.legacyEnabled);
      var existed := BuildTrimmedSet(ids);
      var covers := HistoryCoversEnabled(cat.value, enabled, existed);
      if !covers {
        return p, HistoryIncomplete;
      }
      var converted := ConvertLegacy(p.value, cat.value, d, enabled, existed);
      return Some(converted), Converted;
  }

  /**
   A resolved profile answers as the legacy list did for every operation that
   existed when it was saved, and gives every later operation its default.
   */
  lemma ResolveExact(history: History, p: AppAccessProfile, cat: Catalog, d: AppAccessDefaults,
                     r: AppAccessProfile, op: CatalogOperation)
    requires ReasonFor(history, Some(p), Some(cat)) == Converted && Tidy(p) && DistinctIds(cat) && op in cat
    requires IsConversion(p, cat, d, TrimmedSet(p.legacyEnabled), TrimmedSet(history.ids), r)
    ensures Allows(Some(r), op, d) == if TrimSpace(op.id) in TrimmedSet(history.ids)
                                      then Allows(Some(p), op, d) else Includes(d, op)
    ensures Allows(Some(p), op, d) ==> Allows(Some(r), op, d)
  {
    TidySet(p.legacyEnabled);
    ConversionExact(p, cat, d, TrimmedSet(p.legacyEnabled), TrimmedSet(history.ids), r, op);
  }

  lemma ConversionTidy(p: AppAccessProfile, cat: Catalog, d: AppAccessDefaults, ids: seq<string>, r: AppAccessProfile)
    requires ValidIds(cat) && IsConversion(p, cat, d, TrimmedSet(p.legacyEnabled), TrimmedSet(ids), r)
    ensures Tidy(r)
  {
    var considered := ConsideredIds(cat, TrimmedSet(p.legacyEnabled), TrimmedSet(ids));
    forall id | id in considered ensures Trimmed(id) && id != "" {
      if id in ById(cat) { assert ById(cat)[id] in cat; }
    }
  }

  /**
   From a legacy list through its conversion and any run of saves: an operation
   follows the last page that listed it; before that, the legacy list if it
   existed when the list was saved, and its default otherwise.
   */
  lemma LegacyThenSaves(history: History, p: AppAccessProfile, cat: Catalog, d: AppAccessDefaults, dflt: string -> bool,
                        r: AppAccessProfile, saves: seq<SaveRequest>, op: CatalogOperation)
    requires ReasonFor(history, Some(p), Some(cat)) == Converted
    requires Tidy(p) && DistinctIds(cat) && ValidIds(cat) && op in cat
    requires IsConversion(p, cat, d, TrimmedSet(p.legacyEnabled), TrimmedSet(history.ids), r)
    requires ValidRun(saves, d, dflt) && DefaultsAre(cat, d, dflt)
    ensures AllowsID(AfterSaves(r, saves, Some(cat), d), op.id, dflt(op.id))
            == LastWish(saves, op.id,
                        if op.id in TrimmedSet(history.ids) then op.id in p.legacyEnabled else dflt(op.id))
  {
    ConversionTidy(p, cat, d, history.ids, r);
    ResolveExact(history, p, cat, d, r, op);
    RunOfSaves(r, saves, Some(cat), d, dflt, op.id);
  }

  /** The same for every outcome of resolving: a profile kept legacy keeps its answers for the whole catalog. */
  lemma ResolvedThenSaves(history: History, p: AppAccessProfile, cat: Catalog, d: AppAccessDefaults,
                          dflt: string -> bool, r: AppAccessProfile, saves: seq<SaveRequest>, op: CatalogOperation)
    requires p.legacy && Tidy(p) && DistinctIds(cat) && ValidIds(cat) && op in cat
    requires if ReasonFor(history, Some(p), Some(cat)) == Converted
             then IsConversion(p, cat, d, TrimmedSet(p.legacyEnabled), TrimmedSet(history.ids), r)
             else r == p
    requires ValidRun(saves, d, dflt) && DefaultsAre(cat, d, dflt)
    ensures var later := ReasonFor(history, Some(p), Some(cat)) == Converted && op.id !in TrimmedSet(history.ids);
            AllowsID(AfterSaves(r, saves, Some(cat), d), op.id, dflt(op.id))
            == LastWish(saves, op.id, if later then dflt(op.id) else op.id in p.legacyEnabled)
  {
    if ReasonFor(history, Some(p), Some(cat)) == Converted {
      LegacyThenSaves(history, p, cat, d, dflt, r, saves, op);
    } else {
      assert Named(p, Some(cat), op.id);
      LegacyRunOfSaves(p, saves, Some(cat), d, dflt, op.id);
    }
  }
}
