# Verification of the Gestalt core logic

A Dafny model of the parts of Gestalt whose correctness is hardest to see from
the code, with proofs about every input, every run and every reachable state.

- **IndexedDB cursors** (`Keys`, `Rows`, `Cursor`, `CursorSnapshot`): the order of
  keys, loading a snapshot, and moving over it in every direction and uniqueness
  mode.
- **IndexedDB transactions** (`TransactionStream`): the receive loop with its
  deferred abort, against every client script and every point of failure.
- **Credentials** (`Credentials`, `Grouping`, `Choice`): the preference order,
  grouping stored credentials into accounts, and choosing among them.
- **App access** (`Catalogs`, `AppAccess`, `LegacyAccess`, `OperationPolicy`): access
  profiles stored relative to defaults, saves from pages that list only part of an
  app, conversion of legacy lists, and policies laid over a catalog.
- **JSON normalization** (`JsonValues`, `JsonPaths`, `JsonUnfold`, `JsonTrees`,
  `JsonNormalize`): turning a heap of values, cyclic or shared, into a tree, or
  into an error that names the offending value.
- **Workflow values** (`WorkflowValues`): step inputs and their wire form.
- **Docs publishing** (`DocsVersions`, `DocsManifest`, `DocsPublisher`, `DocsRuns`,
  `DocsRecovery`): publishing versioned docs to a bucket, each publish stopped
  after any write or not at all.

Loops and in-place updates of the source are methods with loops, classes and
arrays, proved equal to functions; the theorems are about those functions.
`Sorting` and `Text` hold the order theory and string primitives they share.

`dafny verify dfyconfig.toml` checks the whole project.

## How the environment enters

- Clocks, client scripts, send failures, provider answers and stop points are
  parameters, quantified over.
- Go map iteration is an arbitrary choice of the next key.
- `sort.Slice` is not stable, so loading promises some sorted arrangement; with no
  ties there is only one.
- A pointer, map or slice is a reference with an address; several references may
  share an address, as a struct and its first field do.
- Dangling references do not occur in Go; the model rejects them.
- JSON text and stored bytes are kept as values: a bucket object is a file's bytes,
  a redirect or a marker. Version objects and the marker have different keys, so
  no comparison crosses these kinds.
- Catalog ids are assumed trimmed and not blank where a lemma says `ValidIds`. The
  validation in `gestaltd/core/catalog/catalog.go` lines 475 to 550 enforces this for
  the catalogs it is applied to. Catalogs built from MCP tool names
  (`gestaltd/services/apps/mcpupstream/upstream.go` lines 316 to 348) keep the raw
  names; `AppAccess.SaveHonoursExactly` says what a save does with those.

## Where the code falls short of a property

- `prevunique`: the W3C Indexed Database API asks for the first record of a run of
  equal keys in forward order. The code returns the last, so it meets this exactly
  for keys without duplicates (`Cursor.PrevUniqueMeetsW3CExactly`,
  `Cursor.PrevUniqueMissesW3C`).
- Infinite numbers are valid W3C keys, ordered at the ends of the number line. The
  code compares their printed text (`Keys.InfinityOrder`, `Keys.InfinityMisplaced`,
  `Keys.InfinityCycle`).
- A cycle is reported for a finite struct with a pointer to its own first field
  (`JsonUnfold.InteriorPointerRefused`, `JsonNormalize.Normalize`).
- A save drops the wish about an operation whose catalog id is not trimmed, unless
  what it carries over happens to agree with it (`AppAccess.SaveHonoursExactly`,
  `AppAccess.FirstSaveDropsWish`, `AppAccess.LaterSaveKeepsOn`).

## Model

| member | source | states |
|---|---|---|
| Keys.KeyAntisymmetric | sdk/go/internal/indexeddbcodec/compare_keys.go:27-53 | swapping the two keys flips the sign of the comparison, arrays of keys included |
| Keys.KeyTransitive | sdk/go/internal/indexeddbcodec/compare_keys.go:27-53 | the comparison is transitive over all key kinds, and strict as soon as one step is |
| Keys.ArrayTransitive | sdk/go/internal/indexeddbcodec/compare_keys.go:122-135 | the same for array keys, element by element and then by length |
| Keys.UnitsTransitive | sdk/go/internal/indexeddbcodec/compare_keys.go:150-173 | UTF-16 code unit order of strings is transitive |
| Keys.KeyCongruent | sdk/go/internal/indexeddbcodec/compare_keys.go:27-53 | keys that compare equal are interchangeable in every comparison |
| Keys.MatchQueryCongruent | sdk/go/internal/indexeddbcodec/query.go:11-30 | a query, range bounds included, cannot tell apart keys that compare equal |
| Keys.KindsDecide | sdk/go/internal/indexeddbcodec/compare_keys.go:27-53 | keys of different kinds: number, date, string, binary, array, in this order |
| Keys.ValuesDecide | sdk/go/internal/indexeddbcodec/compare_keys.go:137-182 | the smaller number and the earlier date come first |
| Keys.TextsDecide | sdk/go/internal/indexeddbcodec/compare_keys.go:27-53 | strings by the first UTF-16 unit that differs, binary keys by the first byte |
| Keys.UnitsDecide | sdk/go/internal/indexeddbcodec/compare_keys.go:150-173 | the first code unit that differs decides, and a proper prefix comes first |
| Keys.PartsDecide | sdk/go/internal/indexeddbcodec/compare_keys.go:122-135 | the first element that differs decides, and a proper prefix comes first |
| Keys.Utf16Decodes | sdk/go/internal/indexeddbcodec/compare_keys.go:150-173 | the UTF-16 units of a string decode to exactly its characters, surrogate pairs included |
| Keys.EqualExactly | sdk/go/internal/indexeddbcodec/compare_keys.go:27-53 | only the same key compares equal, arrays and strings outside the basic plane included |
| Keys.InRangeExactly | sdk/go/internal/indexeddbcodec/compare_keys.go:56-89 | a key is in a decodable range exactly when it is past the lower and before the upper bound, or on a closed one |
| Keys.UndecodableBounds | sdk/go/internal/indexeddbcodec/compare_keys.go:56-89 | a lower bound that cannot be decoded is an error; an upper one is an error exactly for keys not already below the range |
| Keys.MatchExactly | sdk/go/internal/indexeddbcodec/query.go:11-30 | a query matches the keys equal to its own, those in its range, or all; which queries cannot be answered, and with which error |
| Keys.InfinityOrder | sdk/go/internal/indexeddbcodec/compare_keys.go:175-246 | an infinite number is compared by its printed text: the order W3C asks for against a finite number holds if and only if it is negative infinity against a number without a minus sign, negative zero having one |
| Keys.InfinityMisplaced | sdk/go/internal/indexeddbcodec/compare_keys.go:175-246 | inputs in the wrong order: positive infinity against one and against negative infinity, negative infinity against negative zero |
| Keys.InfinityCycle | sdk/go/internal/indexeddbcodec/compare_keys.go:175-246 | three keys, one an infinite number, that the code orders in a circle |
| Rows.RowOrder | sdk/go/indexeddb_snapshot.go:57-66 | key, then primary key, is antisymmetric and transitive on rows |
| Rows.ApplyIndexedDBQuery | sdk/go/indexeddb_snapshot.go:78-93 | the matching rows in order, or the error of the first row that cannot be matched |
| Rows.QueryKeepsMatching | sdk/go/indexeddb_snapshot.go:78-93 | exactly the matching rows stay, as often as they occur; the query fails exactly if some row cannot be matched |
| Rows.LoadPermutation | sdk/go/indexeddb_snapshot.go:56-93 | without ties, loading any permutation gives the same outcome, which is also that of filtering first and sorting afterwards |
| Rows.ReverseSnapshot | sdk/go/indexeddb_snapshot.go:56-93 | the reverse snapshot of tie-free rows is the exact reversal of the forward one |
| Cursor.ContinueIsRepeatedNext | sdk/go/indexeddb_snapshot.go:97-139 | `ContinueToKey` ends exactly where repeating `Next` until the key is at or past the target ends, in every mode and from every position |
| Cursor.UniqueRun | sdk/go/indexeddb_snapshot.go:97-156 | a unique index cursor under any interleaving of the three commands is unpositioned, exhausted or on the first row of a run, and the keys it returned gain strictly |
| Cursor.AdvanceIsRepeatedNext | sdk/go/indexeddb_snapshot.go:143-156 | `Advance(count)` ends on the row that the last of `count` `Next` commands returns if they all return one, and else is exhausted |
| Cursor.PlainAdvance | sdk/go/indexeddb_snapshot.go:143-156 | a cursor that does not collapse keys moves forward by exactly `count` rows while there are that many |
| Cursor.StaysExhausted | sdk/go/indexeddb_snapshot.go:97-156 | an exhausted cursor stays exhausted and returns nothing under every run of commands |
| Cursor.NextsReturnFullRun | sdk/go/indexeddb_snapshot.go:97-113 | enough `Next` commands return the full run of positions, and any more nothing else |
| Cursor.VisitsEachKeyOnce | sdk/go/indexeddb_snapshot.go:97-113 | a full run of a unique index cursor visits the key of every row exactly once |
| Cursor.UniqueRunsMirror | sdk/go/indexeddb_snapshot.go:56-113 | the next-unique and prev-unique key sequences are mirror images |
| Cursor.PrevUniqueReturnsLastOfRun | sdk/go/indexeddb_snapshot.go:97-113 | every row a prev-unique cursor returns, under any commands, is the last with its key in forward order |
| Cursor.PrevUniqueMeetsW3CExactly | sdk/go/indexeddb_snapshot.go:97-113 | such a row is the record W3C asks for, the first with its key in forward order, if and only if no other row has the key |
| Cursor.PrevUniqueMissesW3C | sdk/go/indexeddb_snapshot.go:97-113 | two rows with one key: the second is returned and the first asked for |
| CursorSnapshot.CursorSnapshot.constructor | sdk/go/indexeddb_snapshot.go:44-52 | a new snapshot is unpositioned and empty, its mode read off the request |
| CursorSnapshot.RequestOrder | sdk/go/indexeddb_snapshot.go:44-66 | in loaded rows keys never decrease for the next directions and never increase for the prev directions |
| CursorSnapshot.RequestCollapses | sdk/go/indexeddb_snapshot.go:44-113 | equal keys are collapsed exactly for a unique direction over an index; every other cursor moves row by row |
| CursorSnapshot.CursorSnapshot.Load | sdk/go/indexeddb_snapshot.go:56-75 | the rows are sorted in place, a permutation of what they were; the entries are a sorted arrangement filtered, the very slice of the caller without a query and a new one with it; on an error entries and position stay |
| CursorSnapshot.SortInPlace | sdk/go/indexeddb_snapshot.go:57-66 | sorted in the cursor's direction and a permutation |
| CursorSnapshot.CursorSnapshot.Next | sdk/go/indexeddb_snapshot.go:97-113 | position and returned row are those of the specification, runs of equal keys skipped only by unique index cursors |
| CursorSnapshot.CursorSnapshot.ContinueToKey | sdk/go/indexeddb_snapshot.go:117-139 | position and returned row are those of the scan proved equal to repeated `Next` |
| CursorSnapshot.CursorSnapshot.Advance | sdk/go/indexeddb_snapshot.go:143-156 | `count` times `Next`, stopping at the end; a count that is not positive is refused and moves nothing |
| CursorSnapshot.CursorSnapshot.Current | sdk/go/indexeddb_snapshot.go:159-164 | the row at the cursor, or not found off the rows |
| TransactionStream.Transaction | sdk/go/serve_indexeddb.go:271-353 | for every client script and every failing send, receive or provider call: nothing begun means nothing called; otherwise exactly one finishing call, the last one, the replies one per served operation in order between opening and closing, and the store untouched or with every served write applied in order, the latter only on a successful commit; a readonly run calls no write; the status says how the run ended |
| TransactionStream.ReadonlyRunsOnlyRead | sdk/go/serve_indexeddb.go:707-729 | every call of a readonly run before the finishing one is one of the ten reads |
| TransactionStream.AskedExactly | sdk/go/serve_indexeddb.go:531-729 | the provider is asked for exactly the sixteen known operations, decodable where there is something to decode, the six writes only outside a readonly transaction |
| TransactionStream.ReadonlyRefusesWrites | sdk/go/serve_indexeddb.go:707-729 | in a readonly transaction each of the six writes fails with FailedPrecondition and each of the ten reads comes to what it comes to elsewhere |
| TransactionStream.ReadonlyWriteEndsRun | sdk/go/serve_indexeddb.go:314-334 | a write ends a readonly run with FailedPrecondition: it is not executed and the last call is the abort |
| TransactionStream.ReadonlyStopsAtWrite | sdk/go/serve_indexeddb.go:314-334 | no readonly run serves anything at or after its first write |
| TransactionStream.MalformedOutcome | sdk/go/serve_indexeddb.go:531-681 | an absent or unknown operation is an invalid argument, one that does not decode fails without a status |
| TransactionStream.OutcomeOfAnswer | sdk/go/serve_indexeddb.go:531-681 | the provider's error or value is the outcome, except that the four operations returning records may fail to be marshalled |
| TransactionStream.SurvivesExactly | sdk/go/serve_indexeddb.go:314-325 | a run survives a success, and a failure exactly when a read failed with not-found |
| TransactionStream.EndingExactly | sdk/go/serve_indexeddb.go:302-352 | which event brings about which ending |
| TransactionStream.MessageShape | sdk/go/serve_indexeddb.go:298-346 | opening reply, one reply per served operation under its id with its outcome, then the closing replies of the ending |
| TransactionStream.OpensExactly | sdk/go/serve_indexeddb.go:271-291 | exactly which streams open a transaction, in which mode, and the error of every other |
| TransactionStream.SurvivorsWereExecuted | sdk/go/serve_indexeddb.go:314-325 | what the transaction survives was executed by the provider, and a survived write succeeded |
| TransactionStream.TryOperation | sdk/go/serve_indexeddb.go:314-318 | the readonly gate, then the provider: outcome, call and staged write |
| TransactionStream.ExecuteOperation | sdk/go/serve_indexeddb.go:531-681 | one provider call for a well-formed operation and none for a malformed one, with its outcome |
| TransactionStream.AnswerOperation | sdk/go/serve_indexeddb.go:313-338 | a survived operation is replied to under its id and served; any other stops the run with nothing sent yet |
| TransactionStream.FailOperation | sdk/go/serve_indexeddb.go:326-334 | abort, then the failed reply and the abort reply, then the stream is drained |
| TransactionStream.ServeOperations | sdk/go/serve_indexeddb.go:298-338 | the receive loop serves exactly the operations up to the first event that stops the run |
| TransactionStream.Conclude | sdk/go/serve_indexeddb.go:303-352 | each kind of ending: its calls, its closing messages, its status and what it does to the store |
| TransactionStream.Serve | sdk/go/serve_indexeddb.go:292-353 | the run after Begin, with the flag that says whether the deferred abort is still due |
| TransactionStream.ReceiveBegin | sdk/go/serve_indexeddb.go:271-291 | a transaction opens only on a Begin naming a store that the provider accepts |
| TransactionStream.Drain | sdk/go/serve_indexeddb.go:754-767 | receives messages up to the first event that is none: success exactly on end of stream or cancellation, any other error is returned |
| Credentials.TypedKeyIsAuthoritative | gestaltd/core/credential_metadata.go:34-46 | the metadata plays no part in the account key if and only if the typed key is not blank |
| Credentials.MetadataKey | gestaltd/core/credential_metadata.go:18-46 | without a typed key the reserved metadata entry, trimmed, is the account key, and without it there is none |
| Credentials.NeedsReconnectExactly | gestaltd/core/credential_selection.go:103-110 | a credential needs reconnecting exactly when its grant has expired and a refresh failed; one without a grant or expiry never does |
| Credentials.PreferenceOrder | gestaltd/core/credential_selection.go:23-45 | what wins, criterion by criterion: usable, preferred, known creation time, older, smaller id, smaller qualifier |
| Credentials.PreferAsymmetric | gestaltd/core/credential_selection.go:23-45 | no two candidates are preferred over each other |
| Credentials.PreferTies | gestaltd/core/credential_selection.go:23-45 | neither is preferred exactly when they agree on every ranking field |
| Credentials.PreferTransitive | gestaltd/core/credential_selection.go:23-45 | being preferred is transitive |
| Credentials.UnbeatenTransitive | gestaltd/core/credential_selection.go:23-45 | not being beaten is transitive: a strict weak order |
| Credentials.MarkedNeedsReconnect | gestaltd/core/types.go:254-272 | a marked grant needs reconnecting now and ever after, and marking again changes nothing |
| Credentials.MarkGrantReconnectRequired | gestaltd/core/types.go:257-272 | the grant's new state, and whether anything changed |
| Grouping.GroupsPartition | gestaltd/core/credential_selection.go:66-84 | the groups partition the indices; two share one exactly when equal or sharing a non-blank key |
| Grouping.GroupCandidateGroups | gestaltd/core/credential_selection.go:66-84 | the loop with its `seen` map builds exactly those groups, in order of first appearance |
| Grouping.BestIsEarliestUnbeaten | gestaltd/core/credential_selection.go:89-101 | a group's index is the earliest member no other member is preferred over |
| Grouping.GroupCandidateIndices | gestaltd/core/credential_selection.go:89-101 | one index per group, in group order |
| Grouping.GroupCredentialAccounts | gestaltd/core/credential_selection.go:141-164 | the one-pass loop with in-place replacement yields the canonical credential per account, nils skipped |
| Grouping.OnePassRefinesTwoPass | gestaltd/core/credential_selection.go:66-177 | the one-pass result is the two-pass result over the mapped candidates: same credentials, same order |
| Choice.GroupingIsIdempotent | gestaltd/core/credential_selection.go:141-164 | grouping the grouped accounts again changes nothing |
| Choice.ChooseInstancePermutes | gestaltd/core/credential_selection.go:184-207 | the answer is the same for every permutation of a list of credentials |
| Choice.ChooseInstanceExactly | gestaltd/core/credential_selection.go:184-207 | an answer is found if and only if a usable credential carries the preferred qualifier, or the usable ones are of one account, or none is usable and all are of one account; it names the preferred qualifier, or a credential unbeaten among those counted |
| Choice.CredentialOrder | gestaltd/core/credential_selection.go:112-126 | which of two stored credentials wins, in terms of their grant, qualifier, creation time and id |
| Choice.ChooseCredentialInstancePermutes | gestaltd/core/credential_selection.go:184-207 | and of a list that also holds nils |
| Choice.ChooseCredentialInstance | gestaltd/core/credential_selection.go:184-207 | the loops compute that answer |
| Choice.PreferredInstanceWins | gestaltd/core/credential_selection.go:184-207 | a usable credential with the preferred qualifier is always the answer |
| Choice.AnswersAreUsable | gestaltd/core/credential_selection.go:184-207 | if any credential is usable, an answer names the instance of a usable one from the list |
| Choice.AtMostOneAccount | gestaltd/core/credential_selection.go:141-207 | at most one account has an upward closed property exactly when all credentials with it are of one account |
| Choice.ChooseCredential | gestaltd/core/credential_selection.go:128-136 | the scan over a list with nils returns the chosen credential, or nothing for a list of nils |
| Choice.ChosenIsFirstUnbeaten | gestaltd/core/credential_selection.go:116-136 | the choice is the earliest credential that no other is preferred over |
| Choice.MarkingLosersKeepsChoice | gestaltd/core/credential_selection.go:105-136 | marking the grant of a credential that was not chosen never changes the choice |
| AppAccess.BuildTrimmedSet | gestaltd/core/app_access_legacy.go:171-179 | the set of trimmed ids that are not blank |
| Text.SortedUnique | gestaltd/core/app_access_legacy.go:181-187 | strictly sorted, with exactly the given elements |
| Text.StrictlySortedUnique | gestaltd/core/app_access_legacy.go:181-187 | a strictly sorted list is determined by its elements |
| AppAccess.ListedSetAgreesWithScan | gestaltd/core/app_access.go:73-83 | the prebuilt set of default ids and the scan it replaces agree on every non-blank id |
| AppAccess.DefaultsExactly | gestaltd/core/app_access.go:73-83 | without configured defaults what is not hidden is on, with them exactly the listed ids |
| AppAccess.AnswersExactly | gestaltd/core/app_access.go:118-126 | a legacy profile answers by its list; otherwise an extra id is on, a disabled one off, any other at its default |
| AppAccess.NoProfileAllows | gestaltd/core/app_access.go:102-107 | without a profile everything is allowed |
| AppAccess.ValidExactly | gestaltd/core/app_access.go:130-144 | a profile is valid exactly when it holds decisions of one kind only |
| AppAccess.MergeAppAccessIDs | gestaltd/core/app_access.go:172-180 | the loop computes the strictly sorted union of the trimmed non-blank ids of both lists |
| AppAccess.NewRelativeProfile | gestaltd/core/app_access.go:130-157 | a new relative profile passes validation, keeps subject, app and time, and stores exactly the trimmed non-blank ids, strictly sorted |
| AppAccess.NewLegacyProfile | gestaltd/core/app_access.go:130-169 | a new legacy profile passes validation, keeps subject, app and time, and stores exactly the trimmed non-blank ids, strictly sorted |
| AppAccess.AppAccessOverrides | gestaltd/core/app_access.go:210-231 | the ids the page turned off against their default, and on against it |
| AppAccess.OverridesOutside | gestaltd/core/app_access.go:243-278 | the decisions about everything the page does not list, for relative and legacy profiles |
| AppAccess.SaveAppAccess | gestaltd/internal/server/handlers_app_access.go:66-84 | one save stores the page's decisions merged with those outside the page |
| AppAccess.SavedIds | gestaltd/core/app_access.go:172-278 | id by id, what a save stores |
| AppAccess.SaveDecidesListed | gestaltd/core/app_access.go:118-126 | an id the page lists is allowed exactly when the user wanted it |
| AppAccess.SaveKeepsUnlisted | gestaltd/core/app_access.go:243-258 | an id the page does not list keeps its answer under either default |
| AppAccess.SaveKeepsLegacyAnswer | gestaltd/core/app_access.go:243-278 | saving over a legacy profile keeps the legacy answer of every id outside the page that the static catalog or the legacy list names, under either default |
| AppAccess.RunOfSaves | gestaltd/core/app_access.go:118-278 | over any run of saves with changing pages, an operation is allowed exactly when the last save whose page listed it wanted it; one never listed keeps its first answer |
| AppAccess.LegacyRunOfSaves | gestaltd/core/app_access.go:118-278 | the same from a profile kept legacy: before any page lists it an operation keeps its legacy answer if the list or the static catalog names it, and else follows its default from the first save on |
| AppAccess.LegacyAnswerChanges | gestaltd/core/app_access.go:243-278 | saves that never list an operation change its legacy answer if and only if it is on by default and named by neither |
| AppAccess.RunKeepsDisjoint | gestaltd/core/app_access.go:172-278 | no run of saves, from a relative or a legacy profile, records an id as both off and on, unless it began so |
| AppAccess.SavedAnswer | gestaltd/core/app_access.go:172-278 | the answer after any save over any profile, page and static catalog, ids trimmed or not: what the page decided under the trimmed id and what was carried over |
| AppAccess.SaveHonoursExactly | gestaltd/core/app_access.go:210-278 | exactly when a save honours the wish about an operation alone on the page with its trimmed id: for an id that is not trimmed, if and only if it is carried over as on just when wanted; for a trimmed one, unless something carried over from an id that is not contradicts it |
| AppAccess.TrimmedIsHonoured | gestaltd/core/app_access.go:210-278 | with a tidy profile and a valid static catalog every trimmed id is honoured |
| AppAccess.FirstSaveDropsWish | gestaltd/core/app_access.go:210-231 | an id with a leading space: the first save drops the wish to switch it on |
| AppAccess.LaterSaveKeepsOn | gestaltd/core/app_access.go:243-258 | the same id: a later save drops the wish to switch it off |
| AppAccess.CatalogOperations | gestaltd/core/app_access.go:194-206 | the sorted ids of the operations with a given answer |
| AppAccess.SaveReadsBack | gestaltd/core/app_access.go:184-231 | right after a save the page reads back exactly the operations the user sent |
| LegacyAccess.ConvertLegacy | gestaltd/core/app_access_legacy.go:44-77 | whatever order the ids are visited in: strictly sorted lists of exactly the opted-out and opted-in ids |
| LegacyAccess.ConversionUnique | gestaltd/core/app_access_legacy.go:44-77 | there is only one conversion, so it does not depend on map iteration order |
| LegacyAccess.ConversionExact | gestaltd/core/app_access_legacy.go:44-106 | with distinct ids, an operation is allowed exactly when the list enabled it, or it is on by default and did not exist then |
| LegacyAccess.ConversionCarriesOutside | gestaltd/core/app_access_legacy.go:91-106 | outside the catalog, an id seen as enabled or existing, and graphql, is allowed exactly when the list enabled it |
| LegacyAccess.HistoryCoversEnabled | gestaltd/core/app_access_legacy.go:158-169 | true exactly when every enabled operation of the catalog is in the history |
| LegacyAccess.ResolveLegacyProfile | gestaltd/core/app_access_legacy.go:135-156 | converted or kept as it was, with the reason, in every case of profile, catalog and history |
| LegacyAccess.ConvertsExactly | gestaltd/core/app_access_legacy.go:135-169 | converted exactly if legacy, with a catalog, and with a known history naming every enabled operation of it; the reason in every other case |
| LegacyAccess.ResolveExact | gestaltd/core/app_access_legacy.go:135-169 | a resolved profile answers as the list for every operation that existed, and by default for later ones; nothing enabled turns off |
| LegacyAccess.LegacyThenSaves | gestaltd/internal/server/handlers_app_access.go:66-84 | through conversion and any run of saves, an operation follows the last page that listed it, before that the legacy list if it existed then, and else its default |
| LegacyAccess.ResolvedThenSaves | gestaltd/internal/server/handlers_app_access.go:66-84 | the same for every outcome of resolving, with a profile kept legacy answering by its list |
| OperationPolicy.ApplyPolicy | gestaltd/core/app_operation_policy.go:29-45 | the baseline is unchanged; the result is the filter and map of the baseline, the baseline itself without overrides |
| OperationPolicy.CompactInPlace | gestaltd/core/app_operation_policy.go:34-43 | the slice compacted while still being read holds, up to its new length, the filter and map of what it held |
| OperationPolicy.AppliedMembers | gestaltd/core/app_operation_policy.go:20-45 | exactly the operations with no override or a non-empty one survive, with the policy's roles |
| OperationPolicy.AppliedIdempotent | gestaltd/core/app_operation_policy.go:29-45 | applying a policy twice is applying it once |
| JsonNormalize.Normalize | sdk/go/protocol_helpers.go:147-151 | succeeds exactly on values with a finite tree in which no path enters an address twice, and returns the tree; a reported cycle is one, a value with a finite tree is refused only as a cycle, and the path of every error leads to a value of the kind it reports, for a cycle one inside a value that entered its address at the prior path |
| JsonNormalize.NormalizeValue | sdk/go/protocol_helpers.go:162-239 | the outcome agrees with the unfolding on every heap, an error names a value of its kind, and `seen` is left exactly as found, on success and on error |
| JsonNormalize.NormalizeConcrete | sdk/go/protocol_helpers.go:181-239 | the same for a value that is no pointer or interface |
| JsonNormalize.NormalizeItems | sdk/go/protocol_helpers.go:218-233 | the same for the elements of a slice or array, in order |
| JsonNormalize.NormalizeMap | sdk/go/protocol_helpers.go:248-265 | the same for a map, whatever order its keys are visited in |
| JsonNormalize.NormalizeStruct | sdk/go/protocol_helpers.go:267-293 | the same for a struct: skipped, embedded and empty fields |
| JsonUnfold.UnfoldIsTree | sdk/go/protocol_helpers.go:162-239 | what the detecting unfolding returns is the plain tree |
| JsonPaths.TracksDereferenced | sdk/go/protocol_helpers.go:166-179 | following a pointer or interface stays at the path, inside everything entered above and what the pointer enters |
| JsonPaths.TracksSelected | sdk/go/protocol_helpers.go:218-293 | an element, entry or field lies one step further down, inside everything entered above and its container |
| JsonTrees.ScalarReadsBack | sdk/go/protocol_helpers.go:201-215 | the scalar can be read back from its tree: booleans, strings, integers of both kinds and finite numbers |
| JsonTrees.NilIsNull | sdk/go/protocol_helpers.go:162-199 | the null values: invalid, nil interface, pointer, map and slice |
| JsonTrees.RefusedValues | sdk/go/protocol_helpers.go:181-239 | times, marshalers, numbers that are not finite, byte sequences, maps without string keys and other kinds have no tree |
| JsonTrees.Transparent | sdk/go/protocol_helpers.go:166-179 | a pointer or interface has the tree of what it holds |
| JsonTrees.ListTree | sdk/go/protocol_helpers.go:218-233 | a slice or array has a tree exactly when its elements have: the array of theirs, in order |
| JsonTrees.MapTree | sdk/go/protocol_helpers.go:248-265 | the tree of a map is the object with its keys, each with the tree of its value |
| JsonTrees.MapHasTree | sdk/go/protocol_helpers.go:248-265 | a map with string keys has a tree exactly when all its values have one |
| JsonTrees.StructTree | sdk/go/protocol_helpers.go:267-330 | member by member, the object of a struct: a key is present exactly if some exported field that is neither skipped nor omitted has it as its tag name, or as its Go name without one, and its value is the tree of the last such field |
| JsonTrees.StructHasTree | sdk/go/protocol_helpers.go:267-293 | a struct has a tree exactly when no field is embedded without a tag name and every field that is written has a tree |
| JsonTrees.EmbeddedHasNoTree | sdk/go/protocol_helpers.go:279-281 | a struct with an embedded field without a tag name has no tree |
| JsonTrees.EmptyIsZero | sdk/go/protocol_helpers.go:295-312 | exactly the values omitempty leaves out: false, zero, the empty string, nil, and maps, slices and arrays of length zero |
| JsonUnfold.TreeIsUnfolded | sdk/go/protocol_helpers.go:162-239 | a value that has a tree and repeats no address is accepted |
| JsonUnfold.UnfoldedPathsDoNotRepeat | sdk/go/protocol_helpers.go:166-199 | no path through an accepted value enters an address twice |
| JsonUnfold.AcceptedExactly | sdk/go/protocol_helpers.go:162-239 | a value is accepted if and only if it has a finite tree and no path enters an address twice; sharing alone is accepted |
| JsonUnfold.AcceptedIffFinite | sdk/go/protocol_helpers.go:162-239 | where an address determines its object, exactly the values with a finite tree are accepted |
| JsonUnfold.InteriorPointerRefused | sdk/go/protocol_helpers.go:166-199 | a struct with a pointer to its own first field has a finite tree and is refused |
| JsonUnfold.EnteredOnce | sdk/go/protocol_helpers.go:166-199 | a value with a finite tree does not meet its own object further down |
| WorkflowValues.RoundTrip | sdk/go/workflow_builders.go:355-506 | converting to the wire and back yields the canonical value, at every depth |
| WorkflowValues.FailsExactly | sdk/go/workflow_builders.go:381-455 | conversion fails exactly when some node at any depth sets two kinds or holds a literal that does not encode |
| WorkflowValues.BadNodeExactly | sdk/go/workflow_builders.go:381-455 | a node is bad exactly when two of its eight kinds are set or its literal does not encode |
| WorkflowValues.KindsDecide | sdk/go/workflow_builders.go:381-412 | a value with no kind set is no message, one with two kinds set is refused |
| WorkflowValues.LeavesTravel | sdk/go/workflow_builders.go:413-455 | which message each kind travels as, with its value |
| WorkflowValues.ItemsTravel | sdk/go/workflow_builders.go:426-435 | an array converts exactly when its items do, to their messages in order |
| WorkflowValues.NilMessages | sdk/go/workflow_builders.go:457-513 | messages with absent parts read as nil, empty or unset values |
| WorkflowValues.EmptyMessages | sdk/go/workflow_builders.go:457-506 | an object message without fields reads as nothing set, an array message without items as an empty array |
| WorkflowValues.PreservedExactly | sdk/go/workflow_builders.go:316-506 | the very same value comes back if and only if no node is an empty object, a blank path or an unset literal that is not nil |
| WorkflowValues.ValueToProto | sdk/go/workflow_builders.go:381-455 | the wire value, or the path of a node that cannot be converted |
| WorkflowValues.ValueMapToProto | sdk/go/workflow_builders.go:355-368 | an object's fields, whatever order they are visited in |
| WorkflowValues.ValueListToProto | sdk/go/workflow_builders.go:426-435 | an array's items, in order |
| WorkflowValues.ValueFromProto | sdk/go/workflow_builders.go:457-506 | the value of every wire message, nested objects and arrays included |
| WorkflowValues.LeafFromProto | sdk/go/workflow_builders.go:457-513 | the value of every other kind of message, with nil sub-messages |
| DocsVersions.ParseVersionExact | docs/scripts/publish-sdk-api-docs.py:154-170 | parsing accepts exactly the strings of the version grammar of each language and yields the numbers they spell |
| DocsVersions.TakePhaseExact | docs/scripts/publish-sdk-api-docs.py:156-160 | a pre-release text is recognised exactly, and at most one fits |
| DocsVersions.FirstDifferenceDecides | docs/scripts/publish-sdk-api-docs.py:154-186 | of major, minor, patch, phase rank and phase number the first that differs decides |
| DocsVersions.AtLeastIsTotalOrder | docs/scripts/publish-sdk-api-docs.py:173-186 | the order of versions is total, and antisymmetric on them |
| DocsVersions.ValueOfDecimal | docs/scripts/publish-sdk-api-docs.py:162-170 | the decimal text of a number parses back to it |
| DocsVersions.ReleaseParses | docs/scripts/publish-sdk-api-docs.py:154-170 | the text of a release parses to its three numbers |
| DocsVersions.PreReleaseParses | docs/scripts/publish-sdk-api-docs.py:154-170 | the text of an alpha, beta or release candidate of each language parses to its numbers and rank |
| DocsVersions.PhasesAscend | docs/scripts/publish-sdk-api-docs.py:154-186 | with equal numbers alpha is before beta and beta before release candidate, as texts |
| DocsVersions.PhaseBeforeRelease | docs/scripts/publish-sdk-api-docs.py:154-186 | every pre-release text is before its release |
| DocsVersions.ReleasesAscend | docs/scripts/publish-sdk-api-docs.py:154-186 | release texts are ordered by major, then minor, then patch number |
| DocsManifest.BuildObjects | docs/scripts/publish-sdk-api-docs.py:189-288 | the objects of a release in upload order, or the refusal for a missing index page or duplicate keys |
| DocsManifest.SlotMembers | docs/scripts/publish-sdk-api-docs.py:206-282 | exactly the objects a release has |
| DocsManifest.Layout | docs/scripts/publish-sdk-api-docs.py:199-282 | the key and contents of each object of a release, and whether it is immutable |
| DocsManifest.KeysInjective | docs/scripts/publish-sdk-api-docs.py:199-282 | no two objects of a release share a key |
| DocsManifest.NeverDuplicates | docs/scripts/publish-sdk-api-docs.py:284-287 | the duplicate check never refuses a directory listing |
| DocsPublisher.CurrentLatest | docs/scripts/publish-sdk-api-docs.py:313-321 | what is read names the version of the marker; it fails exactly on a marker that cannot be read |
| DocsPublisher.ShouldUpdateLatest | docs/scripts/publish-sdk-api-docs.py:173-186 | an update is at least the marker's version, only a version below it is none, and it refuses exactly a current version that does not parse |
| DocsPublisher.LaterUpdates | docs/scripts/publish-sdk-api-docs.py:173-186 | a later version text updates a marker that names an earlier one, and never the other way round |
| DocsPublisher.PlanSucceedsExactly | docs/scripts/publish-sdk-api-docs.py:89-115 | a directory is published exactly when its version parses, the marker is absent or readable with a version that parses, and it has an index page |
| DocsPublisher.PlanRefusesWith | docs/scripts/publish-sdk-api-docs.py:89-115 | why it is not published, the first reason that applies |
| DocsPublisher.Bucket.Upload | docs/scripts/publish-sdk-api-docs.py:341-370 | an identical immutable object is skipped, a different one ends the publish, anything else is written |
| DocsPublisher.Bucket.UploadAll | docs/scripts/publish-sdk-api-docs.py:133-139 | the uploads in order, up to a conflict or the point where the process stops |
| DocsPublisher.Bucket.CleanupLatest | docs/scripts/publish-sdk-api-docs.py:417-428 | only stale objects under the latest prefix go, all of them unless stopped |
| DocsPublisher.Bucket.Publish | docs/scripts/publish-sdk-api-docs.py:89-147 | one publish, stopped after any number of writes, is a step of the runs below |
| DocsPublisher.UploadsHold | docs/scripts/publish-sdk-api-docs.py:341-370 | uploads that ran to the end left every object in place |
| DocsPublisher.UploadsMeetNoConflict | docs/scripts/publish-sdk-api-docs.py:341-370 | without a conflict in the bucket the uploads do not meet or make one |
| DocsRuns.ConflictedOver | docs/scripts/publish-sdk-api-docs.py:354-362 | a publish ends in a conflict only over an immutable object of its own that was there with other contents, and leaves it |
| DocsRuns.MarkerLast | docs/scripts/publish-sdk-api-docs.py:267-282 | the marker is untouched unless everything before it is in place |
| DocsRuns.StepMarker | docs/scripts/publish-sdk-api-docs.py:89-147 | one publish leaves the marker alone, or is the latest and has all its version objects in place |
| DocsRuns.EarlierKeepsMarker | docs/scripts/publish-sdk-api-docs.py:89-186 | publishing an earlier version, completed or stopped, leaves the marker as it is |
| DocsRuns.LaterTakesMarker | docs/scripts/publish-sdk-api-docs.py:89-186 | publishing a later version to the end makes the marker name it |
| DocsRuns.PreReleasesGiveWay | docs/scripts/publish-sdk-api-docs.py:154-186 | a pre-release never replaces its own release in the marker, and the release always replaces its pre-release |
| DocsRuns.ImmutableForever | docs/scripts/publish-sdk-api-docs.py:354-362 | over any run of publishes, each stopped anywhere, no stored version object changes or goes |
| DocsRuns.MarkerNeverFalls | docs/scripts/publish-sdk-api-docs.py:173-186 | over any such run, from any bucket, the version a marker names never decreases |
| DocsRuns.MarkerIsBacked | docs/scripts/publish-sdk-api-docs.py:189-288 | over any such run, a marker was written by a publish all of whose version objects are present |
| DocsRuns.MarkerCoversComplete | docs/scripts/publish-sdk-api-docs.py:89-147 | the marker names a version at least that of every publish that completed |
| DocsRuns.MarkerIsMaximum | docs/scripts/publish-sdk-api-docs.py:89-186 | if all publishes complete, the marker names the greatest version published in its language |
| DocsRecovery.LatestExact | docs/scripts/publish-sdk-api-docs.py:231-252 | whatever was there, a completed update leaves under the latest prefix exactly its own files and the alias of its index page |
| DocsRecovery.StepSettles | docs/scripts/publish-sdk-api-docs.py:89-147 | key by key, what a completed publish leaves |
| DocsRecovery.SamePlanAgain | docs/scripts/publish-sdk-api-docs.py:102-115 | a stopped publish does not change what publishing the release again decides |
| DocsRecovery.CompletesExactly | docs/scripts/publish-sdk-api-docs.py:133-147 | a planned publish can complete if and only if no stored version object differs from one of its own |
| DocsRecovery.RetryRecovers | docs/scripts/publish-sdk-api-docs.py:89-147 | after any number of stopped attempts, publishing the docs again is neither refused nor in conflict, and once complete leaves the bucket an undisturbed publish would have left |

## Left out

- gRPC serving, sockets, TLS, host-service dialing and telemetry.
- The unary IndexedDB calls, the cursor stream handler and the record codecs: one call and an error mapping each.
- Client scripts are finite; a client that never stops sending is not modelled.
- A provider whose commit fails after changing the store: a failing commit leaves the store alone here.
- Keys.KeyTransitive: covers every key kind except infinite numbers, for which it is false and `Keys.InfinityOrder` gives the exact condition; NaN is not a valid key.
- Keys.EqualExactly: strings are sequences of Unicode scalar values; Go strings that are not valid UTF-8, whose broken bytes all encode alike, are not modelled.
- Grouping.GroupCandidateIndices: the wrapper that maps the indices back to candidates is not a member of its own.
- Parsing of struct tags: a field carries its tag name and flags.
- The text of errors: an error of JSON normalization carries its path and kind, the others a code or a case.
- WorkflowValues.RoundTrip: the conversion of literals is a codec assumed to round-trip.
- The rest of a workflow (steps, conditions, metadata): flat field conversions.
- Storage, validation of subjects and HTTP handling of app access profiles, and the operation history store.
- LegacyAccess.ConversionExact: assumes distinct catalog ids, without which the source's index keeps the last operation of an id.
- Docs publishing with the force and never policies or forced overwrite, concurrent publishers, manifest mode, and the HTTP requests themselves.
- DocsVersions.ParseVersionExact: digits are ASCII; Python's pattern also accepts other decimal digits, and refuses to convert numbers of several thousand digits.
- Content types and cache headers of published objects.
- Nil-safe getters, flat protobuf conversions, the router, cryptography wrappers, the CLI and the docs site.
