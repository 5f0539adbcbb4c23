# Backup restore catalog

A Dafny model of the backup-restore view of the web client
(`src/xo-app/backup/restore/index.js`). The view keeps a list of backup
remotes. It fills each remote's catalog of backups from the remote's file
listing, and it turns the restore dialog's choice into an import call.

Modules:

- `Grammar` decides the two file-name grammars of a remote listing with
  string operations.
  - The delta grammar is `^vm_delta_(.*)_([^\/]+)\/([^_]+)_(.*)$`. Its greedy
    tag is the longest one for which the rest still matches.
  - The simple grammar is `^([^_]+)_([^_]+)_(.*)\.xva$`.
  - `Parse` is the one parser that both call sites use. It tries the delta
    grammar first.
  - The predicates `DeltaGrammar` and `SimpleGrammar` state what a
    decomposition into captures is. The lemmas prove that the parser
    returns exactly the decomposition the regular-expression engine picks.
- `Catalog` models `_list`:
  - each listing entry becomes a backup record (`RecordOf`);
  - the records are grouped by VM name in listing order (`GroupRecords`,
    a `while` loop);
  - each group is replaced by `{last, simpleCount, deltaCount}`
    (`SummarizeGroups`, a loop over the pending keys).
  - Both loops are proved against the specification functions `GroupsOf`
    and `CatalogOf`. Lemmas about those functions give the keys, the
    choice of `last` with its tie-break, and the counts.
- `Remotes` models the component's list of remotes.
  - It is the class `Restore`, whose field `remotes` is `this.state.remotes`.
  - `ReceiveRemotes` is the subscription callback. It builds a copy of the
    feed, carries over the catalogs already fetched, and sorts the list
    stably by name.
  - `ListBackups` stores a freshly built catalog on the first remote with
    the requested id.
- `ImportModal` models the restore dialog.
  - `ModalOptions` is the option-building loop. It keeps the source's
    behaviour of pushing an `undefined` option (`None`) for an entry that
    matches neither grammar.
  - `DoImport` is the dispatch decision, and `Effects` lists the calls
    that decision makes.
- `Lists` holds generic helpers: a filter-map with its lemmas, and a
  backwards search over positions.
- `Wrappers` holds `Option`.

Dates come from `parseDate`, a moment.js parse of the date token. The model
receives it as a parameter `parseDate: string -> int`. File listings and
raw remote lists are parameters as well.

## Model

| member | source | states |
|---|---|---|
| Grammar.ParseDelta | src/xo-app/backup/restore/index.js:80-82 | a delta match is a decomposition of the entry: `vm_delta_` + tag + `_` + id + `/` + date + `_` + name, with a non-empty id free of `/` and a non-empty date token free of `_` |
| Grammar.LongestTagFits | src/xo-app/backup/restore/index.js:80 | the tag end chosen leaves a matching rest, and every tag end that leaves a matching rest is at or before it (greedy `(.*)`) |
| Grammar.DeltaLongest | src/xo-app/backup/restore/index.js:80-81 | whenever any delta decomposition exists the delta regex matches, and its tag is at least as long as that decomposition's |
| Grammar.DeltaUnique | src/xo-app/backup/restore/index.js:80-82 | two delta decompositions with tags of equal length are the same, so the longest tag fixes id, date and name |
| Grammar.DeltaNoneIff | src/xo-app/backup/restore/index.js:80-81 | the delta regex fails exactly when the entry has no delta decomposition |
| Grammar.ParseSimple | src/xo-app/backup/restore/index.js:93-95 | a simple match is date + `_` + tag + `_` + name + `.xva`, with non-empty date and tag tokens free of `_` |
| Grammar.SimpleComplete | src/xo-app/backup/restore/index.js:93-95 | every simple decomposition of an entry is the one the simple regex returns |
| Grammar.Parse | src/xo-app/backup/restore/index.js:80-105 | a parse result is a decomposition of its own grammar |
| Grammar.ParseDeltaEntry | src/xo-app/backup/restore/index.js:80-91 | an entry with a delta decomposition parses as the delta decomposition with the longest tag |
| Grammar.ParseSimpleEntry | src/xo-app/backup/restore/index.js:92-95 | the simple grammar applies only when the delta grammar fails, and then yields the simple decomposition |
| Grammar.ParseNoneIff | src/xo-app/backup/restore/index.js:92-106 | an entry yields nothing exactly when it matches neither grammar |
| Catalog.RecordOf | src/xo-app/backup/restore/index.js:79-105 | an entry yields a record exactly when it parses; the record's path is the entry, its remoteId the remote's and its name the captured name |
| Catalog.DeltaRecord | src/xo-app/backup/restore/index.js:80-91 | a delta entry yields a `delta` record with the longest tag, the id, `parseDate` of the date token, the name, the entry as path and the remote's id |
| Catalog.SimpleRecord | src/xo-app/backup/restore/index.js:92-104 | an entry matching only the simple grammar yields a `simple` record with no id and the simple captures |
| Catalog.UnmatchedRecord | src/xo-app/backup/restore/index.js:92-106 | an entry matching neither grammar yields no record |
| Catalog.RecordsMember | src/xo-app/backup/restore/index.js:78-109 | a record is among the listing's records exactly when some entry yields it |
| Catalog.Group | src/xo-app/backup/restore/index.js:106-109 | a VM's group holds exactly the records of that name |
| Catalog.GroupsOf | src/xo-app/backup/restore/index.js:106-109 | the group keys are exactly the record names, and no group is empty |
| Catalog.GroupEmptyIff | src/xo-app/backup/restore/index.js:107 | a name's group is empty exactly when no record has that name |
| Catalog.GroupsAppend | src/xo-app/backup/restore/index.js:106-109 | one more record is appended to the end of its name's group, creating it if missing, and leaves every other group as it was |
| Catalog.GroupRecords | src/xo-app/backup/restore/index.js:77-110 | the first loop leaves every name's records, in listing order, under that name |
| Catalog.GroupsStep | src/xo-app/backup/restore/index.js:78-109 | one turn of the first loop pushes the entry's record, if any, onto its group and changes nothing else |
| Catalog.Last | src/xo-app/backup/restore/index.js:114 | `last` is a member of the group and no member has a later date |
| Catalog.LastIsFirstMaximum | src/xo-app/backup/restore/index.js:114 | on equal dates the earliest record in listing order is `last` |
| Catalog.CountKind | src/xo-app/backup/restore/index.js:115-116 | each count `reduce` is the number of records of its kind in the group (the multiplicity of that kind among the records' types) |
| Catalog.CountsCoverGroup | src/xo-app/backup/restore/index.js:115-116 | simple count plus delta count equals the group size |
| Catalog.Summarize | src/xo-app/backup/restore/index.js:113-117 | a summary's `last` is a latest member of the group, and its counts add up to the group size |
| Catalog.SummarizeGroups | src/xo-app/backup/restore/index.js:111-118 | the second loop replaces every group, and only the groups, with its summary |
| Catalog.BuildCatalog | src/xo-app/backup/restore/index.js:77-119 | the two loops together compute the catalog of the listing |
| Catalog.CatalogOf | src/xo-app/backup/restore/index.js:77-119 | the catalog of a listing is keyed by exactly the names of its records; each key's `last` is a record of that VM, and its counts add up to the size of that VM's group |
| Catalog.CatalogKeys | src/xo-app/backup/restore/index.js:106-119 | a VM name is a catalog key exactly when some entry parses with that name |
| Catalog.CatalogSummary | src/xo-app/backup/restore/index.js:111-118 | each key's summary describes that VM's group: `last` is a record of that VM from this listing and this remote, no record of the group is later, and the counts are the group's simple and delta counts |
| Catalog.UnmatchedSkipped | src/xo-app/backup/restore/index.js:92-109 | inserting an entry that matches neither grammar anywhere in a listing leaves the catalog unchanged |
| Catalog.RecordsEmptyIff | src/xo-app/backup/restore/index.js:78-109 | a listing yields no record exactly when no entry yields one |
| Catalog.EmptyCatalogIff | src/xo-app/backup/restore/index.js:36 | a catalog has no VM exactly when no entry of the listing parses |
| Remotes.IsEmptyRemote | src/xo-app/backup/restore/index.js:36 | a remote is empty exactly when it has no catalog or a catalog without VM names |
| Remotes.FindById | src/xo-app/backup/restore/index.js:75 | `find` returns the first remote with the id, or none when no remote has it |
| Remotes.NameBefore | src/xo-app/backup/restore/index.js:67 | the name comparison `orderBy` uses puts a prefix first and never puts a longer name before its own prefix |
| Remotes.NameBeforeTotal | src/xo-app/backup/restore/index.js:67 | any two names are ordered one way or the other |
| Remotes.NameBeforeTransitive | src/xo-app/backup/restore/index.js:67 | the name order is transitive |
| Remotes.SortByName | src/xo-app/backup/restore/index.js:62-67 | `orderBy(…, ['name'])` returns a sorted permutation that keeps same-named remotes in their original order |
| Remotes.Carried | src/xo-app/backup/restore/index.js:62-66 | the copy of the feed has one remote per feed entry, in feed order |
| Remotes.Carry | src/xo-app/backup/restore/index.js:62-66 | a copied remote keeps the feed's id, name, enabled flag and error; it takes the catalog of the first older remote with its id, and has none when no older remote has that id |
| Remotes.Merge | src/xo-app/backup/restore/index.js:62-67 | the new list is sorted by name and is a permutation of the copied feed |
| Remotes.MergeRemotes | src/xo-app/backup/restore/index.js:59-68 | the new list holds exactly the feed's remotes, sorted by name, same-named remotes in feed order |
| Remotes.MergeCatalogs | src/xo-app/backup/restore/index.js:64-65 | a remote in the new list has the catalog of the first older remote with its id, and none when no older remote had that id |
| Remotes.MergeKeepsCatalog | src/xo-app/backup/restore/index.js:64-65 | a remote that is still in the feed keeps the catalog already fetched for it |
| Remotes.WithCatalog | src/xo-app/backup/restore/index.js:74-119 | storing a catalog changes only the first remote with the requested id; that remote gets the catalog and keeps all its other fields; nothing changes when no remote has that id |
| Remotes.RefreshedEmptyIff | src/xo-app/backup/restore/index.js:36 | after a refresh the remote is empty exactly when no entry of its listing parses |
| Remotes.RefreshSurvivesMerge | src/xo-app/backup/restore/index.js:59-68 | a fetched catalog survives every later feed update that still holds the remote |
| Remotes.Restore.constructor | src/xo-app/backup/restore/index.js:51-56 | the component starts with no remotes |
| Remotes.Restore.ReceiveRemotes | src/xo-app/backup/restore/index.js:59-69 | the subscription replaces the list with the merge of the old list and the feed |
| Remotes.Restore.ListBackups | src/xo-app/backup/restore/index.js:72-122 | a refresh stores the listing's catalog on the first remote with the id, and changes nothing else |
| ImportModal.EntryOption | src/xo-app/backup/restore/index.js:232-260 | for one entry the loop pushes `undefined` exactly when neither grammar matches, pushes nothing exactly when the entry is a backup of another VM, and otherwise pushes that VM's backup with its kind, parsed date, path and tag |
| ImportModal.OptionsAround | src/xo-app/backup/restore/index.js:230-261 | each entry contributes in its own place: nothing for a backup of another VM, an undefined option for an entry matching neither grammar, and its backup otherwise |
| ImportModal.OptionsOfVm | src/xo-app/backup/restore/index.js:233-258 | every defined option is a backup of the dialog's VM from this listing, of the kind its grammar gives |
| ImportModal.UndefinedOptions | src/xo-app/backup/restore/index.js:245-260 | an undefined option appears exactly when some entry matches neither grammar |
| ImportModal.OptionsStep | src/xo-app/backup/restore/index.js:231-261 | one turn of the loop appends the entry's option, if it pushes one |
| ImportModal.ModalOptions | src/xo-app/backup/restore/index.js:230-262 | the loop builds the option list of the listing, and at most one option per entry |
| ImportModal.DoImport | src/xo-app/backup/restore/index.js:162-166 | the dialog's value is refused exactly when the SR or the backup is missing |
| ImportModal.Effects | src/xo-app/backup/restore/index.js:163-177 | a refused value makes only the error notification; otherwise the start notification comes first, then the import call of the backup's kind with its remote, SR and file, then a VM start only when `start` is set |
| ImportModal.DispatchCalls | src/xo-app/backup/restore/index.js:162-178 | a refused value makes no import and no start; otherwise there is exactly one import, of the backup's kind, of its path, to the chosen SR from the dialog's remote, and a start follows it only when `start` is set |

## Left out

- Rendering: `render`, `backupOptionRenderer`, `BK_COLUMNS`, the dialog's `render` and the `XOA_PLAN` gate are user interface.
- `parseDate`: the moment.js parse is a foreign library. It is a parameter of the model. An invalid token gives `NaN` in the source, and `NaN` never wins the `>` comparison. The model's dates are integers, so this case is not covered.
- Transport: `listRemote`, `subscribeRemotes`, `importBackup`, `importDeltaBackup`, `startVm`, `setState` and the store plumbing are asynchronous client calls. Listings and feeds are parameters, and the calls of a restore are the `Effect` values of `Effects`.
- Interleaving: the model does not cover a feed update arriving while `_list` awaits its listing. `ListBackups` applies to the list current when the listing arrives, as the source reads `this.state` after the `await`.
- The `try`/`catch` of `doImport` (lines 172-181) catches only synchronous throws. Rejected promises are not handled in the source, so the model has no failure branch.
- The `TypeError` path for a backup type other than `simple` or `delta` is not modelled, because `Kind` has only those two values.
- ImportModal.ModalOptions: models the loop once the listing has arrived. The `if (remoteId)` gate, which skips the listing altogether for an empty remote id, is not modelled.
- Catalog representation: `map(backupInfoByVm)` (line 119) turns the dictionary into an array of summaries. Its order follows JavaScript key enumeration, which puts integer-like names first. The model keeps the catalog as a map from VM name to summary, so that order is not represented.
- Catalog.SummarizeGroups: picks the keys in an arbitrary order, not in `for...in` order. The result does not depend on that order.
- Names such as `constructor` or `__proto__` collide with the object prototype in the source dictionary. The model's map has no prototype.
- Line terminators: the regex `.` excludes them. Entries are assumed to hold none.
- Remotes.NameBefore: compares names by Dafny `char` values, while JavaScript compares UTF-16 code units. The two orders differ only for names with characters outside the Basic Multilingual Plane.
- Aliasing: remotes are values. The source's in-place update of the found remote object is modelled as replacing that element of `remotes`.
