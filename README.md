# URL rewrite reconciliation of the product import

This project models, in Dafny, the `UrlRewriteUpdateObserver` of the
product import library (`src/Observers/UrlRewriteUpdateObserver.php`). When a
product is imported, the observer reconciles the URL rewrites already stored for
that product with the rewrites the current batch has just computed:

1. **Index build** (`prepareUrlRewrites`). The observer empties its index and
   files every stored `url_rewrite` row under its store id, cast to integer,
   and its request path. A later row with the same pair replaces an earlier one.
2. **Lookup and remove** (`getExistingUrlRewrite`, `removeExistingUrlRewrite`).
3. **Matching phase** (`initializeUrlRewrite`, called for each candidate by the
   parent's `process`). A candidate first looks up the entry at its own store id
   and request path:
   - with no entry there, the candidate is created as it is;
   - an entry there is claimed, i.e. removed from the index;
   - a claimed manual entry (`is_autogenerated` casts to 0) suppresses the
     candidate, which is PHP's `false`;
   - a claimed autogenerated entry is updated: `mergeEntity(existing, candidate)`,
     in which the candidate's fields win and the stored row's other fields, its
     primary key among them, are kept.
4. **Leftover phase** (`process`). Every entry still in the index is visited:
   - manual entries are skipped;
   - entries that already are redirects are skipped;
   - every other entry is persisted as a 301 redirect merged onto the stale row.

   The redirect points to the category named by the row's metadata when the
   batch computed a rewrite for that category id. Otherwise it points to the
   root category. `getMetadata` falls back to the root category's id when the
   stored metadata names none.

The model has five modules:

- `PhpValues` holds the PHP values the observer handles:
  - cells are `Null`, `Int` or `Str`, and arrays are `map<string, Value>`;
  - `isset`;
  - the `(integer)` cast;
  - how a value becomes an array key;
  - `array_merge`, which is what `mergeEntity` does.
- `MemberNames` holds the column names.
- `RewriteIndex` holds the index (store id → request path → row) and the pure
  operations on it.
- `Reconciliation` holds:
  - the match decision;
  - the matching phase, over the candidates in the parent's order;
  - the redirect a stale row becomes;
  - the order-independent statement of what the leftover phase persists (`RedirectsExactly`);
  - the lemmas about a whole run.
- `Observer` holds the class the observer is, described next.

The class `Observer.UrlRewriteUpdateObserver` keeps the observer's mutable
state:

- the candidate map `urlRewrites`;
- the index `existingUrlRewrites`;
- the log `persisted`, holding every row handed to `persistUrlRewrite`.

Its methods change that state the way the PHP methods do, loops included. Each
method is proved against the functions above.

The collaborators are fields of the `Collaborators` datatype, as uninterpreted
functions:

- `getRootCategory`, `getCategory` and `prepareRequestPath`;
- `prepareMetadata`;
- `serialize` and `unserialize`;
- `loadUrlRewriteProductCategory`.

The stored rows that `getUrlRewritesByEntityTypeAndEntityId` returns are a
parameter of `PrepareUrlRewrites`, and so is the parent's candidate map.

A redirect does not take the replacing candidate's own target path. Its
target path is `prepareRequestPath($category)` (lines 113-123), where
`$category` is `getCategory` of the metadata's category id when the batch has
a rewrite for that id, and the root category otherwise.

## Model

| member | source | states |
|---|---|---|
| PhpValues.IntCast | src/Observers/UrlRewriteUpdateObserver.php:167 | the `(integer)` cast of lines 70, 98, 104, 167 and 195: null is 0, an integer is itself, a string is read as an optional sign and its leading digits; its properties are the lemmas `IntCastReadsLeadingDigits`, `IntCastWithoutDigits` and `IntCastOfIntToString` |
| PhpValues.IntCastReadsLeadingDigits | src/Observers/UrlRewriteUpdateObserver.php:167 | an integer's decimal notation followed by any text that does not start with a digit casts to that integer |
| PhpValues.IntCastWithoutDigits | src/Observers/UrlRewriteUpdateObserver.php:98 | a string starting with neither a digit nor a sign, the empty string included, casts to 0 |
| PhpValues.ArrayKeyInt | src/Observers/UrlRewriteUpdateObserver.php:54 | a value indexes the integer-keyed store level only as an integer, or as a string that is exactly the canonical decimal notation of the integer it casts to, and then as that integer; null never does |
| PhpValues.ArrayMerge | src/Observers/UrlRewriteUpdateObserver.php:134 | mergeEntity keeps the keys of both arrays; the second array's values win and the first's other values are kept |
| PhpValues.IntCastOfIntToString | src/Observers/UrlRewriteUpdateObserver.php:167 | casting the decimal string of an integer (how storage returns a store id) gives that integer back |
| PhpValues.ArrayKeyIntOfDecimal | src/Observers/UrlRewriteUpdateObserver.php:186 | an integer store id and its decimal string denote the same integer array key, and the same string key |
| RewriteIndex.StoreOf | src/Observers/UrlRewriteUpdateObserver.php:167 | the store a row is filed under, its store id cast to integer; FiledAtOfStored and LookupOwnPosition state what it is for stored rows and lookups |
| RewriteIndex.PathOf | src/Observers/UrlRewriteUpdateObserver.php:168 | the request path a row is filed under, as the string array key its value becomes |
| RewriteIndex.FiledAtOfStored | src/Observers/UrlRewriteUpdateObserver.php:167-168 | a row whose store id is an integer or its decimal string is filed under that integer and its request path |
| RewriteIndex.LookupOwnPosition | src/Observers/UrlRewriteUpdateObserver.php:186-190 | looking a row up by its own uncast store id and request path reaches the position it is filed under when the store id is an integer key, and finds nothing otherwise |
| RewriteIndex.Insert | src/Observers/UrlRewriteUpdateObserver.php:171 | the row is filed at its own store id and request path, replacing what was there; every other position is unchanged |
| RewriteIndex.BuildIndex | src/Observers/UrlRewriteUpdateObserver.php:155-172 | the built index is well formed (every entry at its row's position) and no store's array is empty |
| RewriteIndex.LastAt | src/Observers/UrlRewriteUpdateObserver.php:165-172 | reference definition: the last loaded row belonging at a position, None exactly when no loaded row belongs there |
| RewriteIndex.LastAtIsLast | src/Observers/UrlRewriteUpdateObserver.php:165-172 | the reference finds the row loaded last among those filed at the position |
| RewriteIndex.BuildIndexIsLastLoaded | src/Observers/UrlRewriteUpdateObserver.php:165-172 | at every position the built index holds what the reference definition gives |
| RewriteIndex.BuildIndexEntries | src/Observers/UrlRewriteUpdateObserver.php:155-172 | the positions of the built index are exactly the (store id, request path) pairs of the loaded rows, and each holds the last row loaded with its pair |
| RewriteIndex.Lookup | src/Observers/UrlRewriteUpdateObserver.php:52-57 | finds an entry exactly when the store id is an integer key and the index has an entry at it and the request path, and then returns that entry |
| RewriteIndex.LookupFindsEntry | src/Observers/UrlRewriteUpdateObserver.php:52-57 | an entry is found by its store id given as an integer or as its decimal string |
| RewriteIndex.Remove | src/Observers/UrlRewriteUpdateObserver.php:66-77 | only the passed row's position is unset; every other entry and every store key stays; an absent position leaves the index unchanged; well-formedness is kept |
| RewriteIndex.RemoveIdempotent | src/Observers/UrlRewriteUpdateObserver.php:66-77 | removing the same row twice is removing it once |
| Reconciliation.IsManual | src/Observers/UrlRewriteUpdateObserver.php:195 | the row's is_autogenerated casts to 0, the test of lines 98 and 195; FlagsRead and MissingFlagsRead state what it means for stored rows |
| Reconciliation.IsRedirect | src/Observers/UrlRewriteUpdateObserver.php:104 | the row's redirect_type casts to something other than 0 |
| Reconciliation.FlagsRead | src/Observers/UrlRewriteUpdateObserver.php:98-107 | with flags held as integers or as decimal strings, a row is manual exactly when is_autogenerated is 0, a redirect exactly when redirect_type is not 0, and stale exactly when both hold the other way |
| Reconciliation.MissingFlagsRead | src/Observers/UrlRewriteUpdateObserver.php:98-104 | a row without is_autogenerated counts as manual, one without redirect_type as no redirect |
| Reconciliation.DecodeMetadata | src/Observers/UrlRewriteUpdateObserver.php:245-250 | the unserialized metadata, empty when the cell is not set or unserialize fails; DecodeMetadataReadsBack is its partner |
| Reconciliation.DecodeMetadataReadsBack | src/Observers/UrlRewriteUpdateObserver.php:245-250 | a row's metadata reads back what was serialized into it when unserialize inverts serialize, and reads as the empty array when the cell is not set |
| Reconciliation.GetMetadata | src/Observers/UrlRewriteUpdateObserver.php:241-264 | the result always has category_id; a set category id leaves the decoded metadata unchanged; otherwise the root category's entity id is put in and every other decoded key is kept |
| Reconciliation.GetMetadataResolves | src/Observers/UrlRewriteUpdateObserver.php:253-260 | when the root category has an id, the category id of the result is set |
| Reconciliation.TargetCategory | src/Observers/UrlRewriteUpdateObserver.php:112-119 | the category a stale row redirects into; TargetCategoryOfStoredId and RedirectTarget state which one it is |
| Reconciliation.TargetCategoryOfStoredId | src/Observers/UrlRewriteUpdateObserver.php:112-119 | a category id stored as an integer or its decimal string selects getCategory of that id exactly when the import computed a rewrite for it, the root category otherwise |
| Reconciliation.RedirectOverride | src/Observers/UrlRewriteUpdateObserver.php:126-131 | the 301 configuration has exactly the four redirect fields |
| Reconciliation.Redirect | src/Observers/UrlRewriteUpdateObserver.php:126-134 | the redirect sits at the stale row's store id and request path, is flagged manual and is a redirect |
| Reconciliation.RedirectFields | src/Observers/UrlRewriteUpdateObserver.php:126-134 | the redirect is the stale row with only is_autogenerated=0, redirect_type=301, metadata and target_path replaced; primary key, store id and request path are kept |
| Reconciliation.RedirectTarget | src/Observers/UrlRewriteUpdateObserver.php:110-123 | the target path comes from the category named by the stored metadata when the batch has a rewrite for its id, from the root category otherwise, with the root id standing in when none is stored |
| Reconciliation.RedirectMetadataReadsBack | src/Observers/UrlRewriteUpdateObserver.php:123-129 | when serialize and unserialize agree, the redirect's metadata decodes to the target category's metadata |
| Reconciliation.Match | src/Observers/UrlRewriteUpdateObserver.php:182-206 | the index only loses entries and keeps well-formedness; an emitted row is the candidate or the candidate merged onto an autogenerated entry |
| Reconciliation.MatchWithoutEntry | src/Observers/UrlRewriteUpdateObserver.php:190-205 | with no entry at the candidate's position, the candidate is emitted unchanged and the index is untouched |
| Reconciliation.MatchClaimsEntry | src/Observers/UrlRewriteUpdateObserver.php:190-201 | an entry at the candidate's position is removed and nothing else is; nothing is emitted exactly when it is manual; otherwise the merge has the candidate's fields and the entry's other fields, primary key included |
| Reconciliation.MatchAll | src/Observers/UrlRewriteUpdateObserver.php:89 | the matching phase only removes entries, keeps well-formedness and emits at most one row per candidate; which entries it removes is stated by `MatchAllKeepsUnclaimed` |
| Reconciliation.MatchStepPending | src/Observers/UrlRewriteUpdateObserver.php:186-201 | one candidate leaves every position its lookup does not reach as it was, and a stale entry survives it exactly when the lookup does not reach its position |
| Reconciliation.UnclaimedSnoc | src/Observers/UrlRewriteUpdateObserver.php:89 | no candidate of a list reaches a position exactly when none of its prefix does and its last candidate does not |
| Reconciliation.MatchAllKeepsUnclaimed | src/Observers/UrlRewriteUpdateObserver.php:89 | the matching phase leaves every position no candidate reaches as it was, and a stale entry survives it exactly when no candidate reaches its position |
| Reconciliation.MatchAllOrigins | src/Observers/UrlRewriteUpdateObserver.php:190-205 | every row the matching phase emits is a candidate or a candidate merged onto an autogenerated stored row |
| Reconciliation.MatchLeavesNoPendingAtEmit | src/Observers/UrlRewriteUpdateObserver.php:190-201 | when the candidate's store id is an integer key, no stale entry remains at the emitted row's position after the match |
| Reconciliation.MatchAllLeavesNoPendingAtEmitted | src/Observers/UrlRewriteUpdateObserver.php:190-201 | after the matching phase, no stale entry remains at the position of any emitted row |
| Reconciliation.RedirectsExactly | src/Observers/UrlRewriteUpdateObserver.php:95-139 | the outcome of the leftover phase, independent of visiting order: every persisted row is the redirect of a stale entry, no two share a position, and every stale entry's redirect is persisted; the lemmas of the following rows state its consequences |
| Reconciliation.RedirectsExactlyDetermined | src/Observers/UrlRewriteUpdateObserver.php:95-139 | two outputs that both meet RedirectsExactly hold the same rows: the leftover phase's output is determined up to order |
| Reconciliation.RedirectsSoFarSkip | src/Observers/UrlRewriteUpdateObserver.php:97-107 | skipping a manual or redirect entry keeps the leftover-phase invariant |
| Reconciliation.RedirectsSoFarAppend | src/Observers/UrlRewriteUpdateObserver.php:109-137 | persisting the redirect of a stale entry not visited before keeps the leftover-phase invariant |
| Reconciliation.RedirectsSoFarComplete | src/Observers/UrlRewriteUpdateObserver.php:95-139 | once every entry is visited, the persisted rows are exactly one redirect per stale entry |
| Reconciliation.RedirectsOnePerEntry | src/Observers/UrlRewriteUpdateObserver.php:95-137 | each stale entry has exactly one persisted row at its position, and that row is its redirect |
| Reconciliation.RedirectsSkipSettled | src/Observers/UrlRewriteUpdateObserver.php:97-107 | no row is persisted at the position of a manual entry or of an entry that already is a redirect |
| Reconciliation.RedirectIsPending | src/Observers/UrlRewriteUpdateObserver.php:95-107 | every persisted redirect sits at a stale entry's position |
| Reconciliation.SecondSweepPersistsNothing | src/Observers/UrlRewriteUpdateObserver.php:98-107 | over entries that are all manual or redirects, as the redirects written are, the leftover phase persists nothing: no redirect chains |
| Reconciliation.RunLeavesManualRowsAlone | src/Observers/UrlRewriteUpdateObserver.php:85-140 | over a whole run, every persisted row is a candidate, a candidate merged onto an autogenerated stored row, or the redirect of a stale stored row |
| Reconciliation.RunNeverRedirectsOverAMatch | src/Observers/UrlRewriteUpdateObserver.php:85-140 | over a whole run, no redirect is persisted at the position of a row the matching phase persisted |
| Reconciliation.RedirectsEveryUnclaimed | src/Observers/UrlRewriteUpdateObserver.php:85-140 | a stale entry of the index before matching that no candidate reaches has its redirect persisted by the leftover phase |
| Reconciliation.RunRedirectsEveryUnclaimedStaleRow | src/Observers/UrlRewriteUpdateObserver.php:145-172 | over a whole run, a stored row that is autogenerated, not a redirect, not shadowed by a later stored row at its position and reached by no candidate has its redirect persisted |
| Reconciliation.InitializeUrlRewriteProductCategory | src/Observers/UrlRewriteUpdateObserver.php:216-230 | the attributes always win; a relation found for the product and category id is merged under them, keeping its other fields; otherwise the attributes are returned as they are |
| Observer.UrlRewriteUpdateObserver.constructor | src/Observers/UrlRewriteUpdateObserver.php:42 | the observer starts with an empty index, no candidates and nothing persisted |
| Observer.UrlRewriteUpdateObserver.PersistUrlRewrite | src/Observers/UrlRewriteUpdateObserver.php:137 | the row is appended to the persisted rows |
| Observer.UrlRewriteUpdateObserver.PrepareUrlRewrites | src/Observers/UrlRewriteUpdateObserver.php:148-173 | whatever the old index, the new one is the index built from the stored rows; the candidates are those given; nothing is persisted |
| Observer.UrlRewriteUpdateObserver.RemoveExistingUrlRewrite | src/Observers/UrlRewriteUpdateObserver.php:66-77 | the new index is Remove of the old one and the passed row |
| Observer.UrlRewriteUpdateObserver.InitializeUrlRewrite | src/Observers/UrlRewriteUpdateObserver.php:182-206 | the row returned and the new index are those Match gives for the old index |
| Observer.UrlRewriteUpdateObserver.ProcessCandidates | src/Observers/UrlRewriteUpdateObserver.php:89 | the new index and the rows persisted are those MatchAll gives over the candidates |
| Observer.UrlRewriteUpdateObserver.Process | src/Observers/UrlRewriteUpdateObserver.php:85-140 | the matching phase's rows are persisted first; the rows after them are exactly one redirect per stale entry left by it |
| Observer.UrlRewriteUpdateObserver.RedirectLeftovers | src/Observers/UrlRewriteUpdateObserver.php:95-139 | the rows it appends are exactly one redirect per stale entry of the index, at distinct positions, and nothing for the other entries |
| Observer.UrlRewriteUpdateObserver.RedirectStore | src/Observers/UrlRewriteUpdateObserver.php:96-138 | the inner loop over one store's request paths extends the leftover-phase invariant to all of that store's positions |
| Observer.UrlRewriteUpdateObserver.RedirectRow | src/Observers/UrlRewriteUpdateObserver.php:109-134 | the row merged from the metadata lookup and the 301 configuration is the stale row's redirect |

## Left out

- PhpValues.IntCast: reads an optional sign and the leading decimal digits only. It does not model leading whitespace, exponent or float notation, or the saturation at the 64-bit integer range. Store ids, flags and redirect types are small decimal integers.
- Cell values other than null, integers and strings are not modelled: floats, booleans and nested arrays. Rows from storage hold strings and rows from the import hold integers.
- The order of PHP arrays is not modelled. As a consequence:
  - the leftover phase visits the stores and request paths in an arbitrary order;
  - its contract does not depend on that order, and so it does not fix the order of the persisted redirects;
  - `array_merge` is modelled on keys and values, not on key order.
- The candidate loop of the parent's `process` and the parent's `prepareUrlRewrites` are not part of this model. The loop is modelled as `ProcessCandidates` over a sequence of candidate rows in the parent's order, and every row that is not `false` is persisted. The candidate map `$this->urlRewrites` is a parameter, keyed by integer category ids.
- Database access is not modelled:
  - `getUrlRewritesByEntityTypeAndEntityId` becomes the `stored` parameter;
  - `loadUrlRewriteProductCategory` becomes a collaborator function;
  - `persistUrlRewrite` becomes an append to the `persisted` log;
  - `getPrimaryKey` and the entity type only feed the storage query, so they are left out with it.
- The collaborators are uninterpreted functions, fixed for one product: `getRootCategory`, `getCategory`, `prepareRequestPath`, `prepareMetadata`, `serialize` and `unserialize`. `getRootCategory` is therefore the same value in `process` and in `getMetadata`. `getCategory` receives the metadata's category id as the integer key that matched, not as the raw stored value.
- PhpValues.ArrayKeyInt: PHP keeps a decimal string beyond the 64-bit integer range as a string key. The model makes every canonical decimal string an integer key, because integers are unbounded here.
- The collaborators never fail. `getCategory`, `prepareRequestPath`, `prepareMetadata`, `serialize` and `persistUrlRewrite` are total, so no run is cut short. In PHP an exception at lines 118, 122-123 or 137 stops `process()` and propagates to the caller, with the rows persisted before it kept and nothing rolled back. `Process` and `RedirectLeftovers` describe only the run that completes.
- Reconciliation.DecodeMetadata: `unserialize` yields an array or PHP's `false`, and `false` acts as an empty array. Blobs that decode to another scalar are not modelled.
- Reconciliation.RunNeverRedirectsOverAMatch: holds only when every candidate's store id is an integer key, as store ids the import builds are. A candidate whose store id is a non-canonical string such as "01" misses the lookup, so it is created beside the stale row at the same position.
- Reconciliation.MatchLeavesNoPendingAtEmit: requires the candidate's store id to be an integer key. A non-canonical string such as "01" misses the lookup, so the stale entry at the created row's position stays.
- Reconciliation.MatchAllLeavesNoPendingAtEmitted: requires the same integer-key store ids, for the same reason.
- A row that lacks a column reads as null. PHP raises an "Undefined index" notice (a warning in PHP 8) when a stored row lacks `is_autogenerated` (lines 98 and 195) or `redirect_type` (line 104), and the model does not. Rows from storage always carry these columns.
- `src/Utils/SqlStatements.php` is not part of this model. It holds SQL text and statement configuration for the persistence layer.
- `tests/Subjects/BunchSubjectTest.php` is not part of this model. It is mock wiring for the pipeline subject.
- Concurrency in the surrounding import pipeline is not modelled: each product is reconciled alone.
