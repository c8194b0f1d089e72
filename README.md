# quick-cmd store, modelled in Dafny

quick-cmd keeps shell commands in an SQLite database, grouped by tags and
collections. Each command, tag and collection can be scoped to operating
systems ("windows", "mac", "linux"). This project models the store layer
(`sqlite.go`, `sqlite_tag.go`, `sqlite_command.go`, `sqlite_collection.go`),
the IN-list renderer of `util.go` and the tag handlers of `app_tag.go`, and
proves what each operation does to the tables.

How the store is modelled:

- The whole database is one value `Schema.Tables`, held by the class
  `Schema.Database` together with a logical clock. The clock stands in for
  `time.Now()`.
- The three entity tables are maps from id to row. Each row has a
  `deletedAt` that is `None` while the row is live (soft delete).
- `Collection.DeletedAt` is a Go `string`, not a pointer. `CreateCollectionSQLite`
  binds it as it is, so even "" is stored as non-NULL text
  (sqlite_collection.go:31-34). The model stores it as `Some(Text(s))`, so
  a created collection fails every `deleted_at IS NULL` test. It is never
  listed, `GetCollectionSQLite` and `DeleteCollectionSQLite` do not find
  it, `UpdateCollectionSQLite` leaves its row alone, and
  `AddCollectionToCommandSQLite` refuses it.
- The five link tables (`command_tags`, `command_collections`, `tag_os`,
  `collection_os`, `command_os`) are sets of pairs. `INSERT OR IGNORE` is set
  insertion and `DELETE ... WHERE` is filtering.
- Three counters play the part of `AUTOINCREMENT`.
- Foreign keys are enforced. A link to a missing row fails, and the
  model's `Fail(ForeignKeyViolation)` is that error. A soft-deleted row still
  exists, so links to it succeed.
- Rows are never hard-deleted, so `ON DELETE CASCADE` never fires.
- A transaction copies the tables when it begins and restores them on
  rollback. That restore also rolls back the `AUTOINCREMENT` counter, while
  the caller's struct keeps the id the insert drew.
- The non-transactional paths (`UpdateCommandSQLite`,
  `UpdateCollectionSQLite`) keep whatever they did before a failing step.
- Every Go function over the global `DB` becomes a method taking the
  `Database`.
- Query results whose order SQL leaves open are built by loops that pick an
  arbitrary remaining row. Their contracts therefore hold for every order.
- Results of joins without `DISTINCT` are specified by how often each row
  occurs (a multiset count).

Module map:

- `Entities`: the Go structs and the error kinds.
- `Links`: link tables and the row-reading loops.
- `Schema`: tables, the engine's invariants, and the single-row link inserts.
- `InArgs`: `SQL_Slice_To_In_Args`.
- `OsMask`: `getOSListByValue`.
- `OsLinks`: the OS link helpers.
- `TagRepo`, `CollectionRepo`, `CommandRepo`: the three store files.
- `CommandLinks`: the command link functions of `sqlite.go`, from
  `AddTagToCommandSQLite` onward.
- `AppTags`: `app_tag.go`.

Behaviours of the code that the model keeps as written:

- `DeleteTagSQLite` (sqlite_tag.go:322-367) runs its three statements and
  commits without checking how many rows they touched, so it succeeds on a
  missing or already deleted tag.
- `GetCommandSQLite` leaves its association lookups commented out
  (sqlite_command.go:137-150), so the command comes back without tags,
  collections or labels.
- `GetCommandsSQLite` joins `commands` with `command_os` without an `ON`
  clause (sqlite_command.go:251), so the OS filter only decides whether any
  label row of any command passes.
- `UpdateCommandSQLite` (sqlite_command.go:308-365) issues each statement on
  its own, outside a transaction, so a failing step keeps the earlier ones.
- `GetCommandIDsByTagIDSQLite` reads `command_tags` with a `LEFT JOIN` on
  `commands` and no `deleted_at` condition (sqlite_tag.go:399), so it lists
  soft-deleted commands too.

## Model

| member | source | states |
|---|---|---|
| Schema.EmptyTables | sqlite.go:58-184 | the freshly created schema has no rows in any of its eight tables, every counter at zero, and satisfies every foreign key |
| Schema.Database.constructor | sqlite.go:55-203 | a new store is well formed, empty, and its clock is at zero |
| Schema.Database.Tick | sqlite_command.go:13 | every reading of the clock is later than all earlier ones and changes no table |
| Schema.InsertLinkIdempotent | sqlite.go:512-515 | a link insert succeeds exactly when the rows it names exist, deleted or not, and repeating it changes nothing, for each of the five link tables |
| Links.WithoutParentExact | sqlite.go:301-307 | deleting all links of one parent leaves it none and every other parent exactly its own |
| Links.ReplaceChildrenExact | sqlite_collection.go:186-199 | delete-all followed by re-insert leaves the parent exactly the listed values and other parents untouched |
| Links.ReplaceOwnersExact | sqlite_tag.go:299-314 | the same for a tag's set of commands in `command_tags` |
| Links.ReconcileChildren | sqlite_tag.go:283-297 | inserting the new labels and then deleting the old ones not listed gives exactly the new set |
| Links.ReconcileOwners | sqlite_tag.go:299-314 | inserting the new commands and then deleting the old ones not listed gives exactly the new set |
| Links.CollectChildren | sqlite.go:226-247 | the reader loop returns every linked value of the parent once and nothing else, in any row order |
| Links.CollectOwners | sqlite_tag.go:257-272 | the reader loop returns every command linked to the tag once |
| Links.CollectBatch | sqlite.go:619-625 | the batch row loop maps each listed id that has links to exactly its linked values, each once; ids without links are absent |
| InArgs.SliceToInArgs | util.go:8-42 | the text is the rendering of the slice; only an unsupported type gives an error, with text "()" |
| InArgs.QuoteEach | util.go:15-23 | the `[]string` loop yields "(" + quoted elements joined by "," + ")" |
| InArgs.SeparateEach | util.go:24-32 | the `[]uint64` loop yields "(" + decimals joined by "," + ")" |
| InArgs.TerminateEach | util.go:33-38 | the `[]int` loop yields "(" + each number followed by "," + ")" |
| InArgs.RenderedParenthesised | util.go:10-41 | every result starts with "(" and ends with ")", and it is "()" exactly for nil, an unsupported type, or an empty slice |
| InArgs.DecimalRoundTrip | util.go:29 | reading back a rendered unsigned number gives the number |
| InArgs.SignedRoundTrip | util.go:35 | reading back a rendered signed number gives the number |
| InArgs.SplitJoin | util.go:16-21 | splitting a comma-joined list at its commas gives back the parts when none holds a comma |
| InArgs.Uint64sRoundTrip | util.go:24-32 | the inside of a rendered `[]uint64` list, split and parsed, is the input ids |
| InArgs.StringsRoundTrip | util.go:15-23 | the inside of a rendered `[]string` list, split and unquoted, is the input when no string holds a comma |
| InArgs.StringsReadBack | sqlite_command.go:262-267 | the OS list `GetCommandsSQLite` renders has its parentheses and, when no label holds a comma, holds exactly the labels of the option |
| InArgs.StringsNotEscaped | util.go:20 | an embedded quote is copied unescaped |
| InArgs.TerminatedSplit | util.go:33-38 | the `[]int` text split at commas is the numbers followed by one empty part |
| InArgs.IntsRoundTrip | util.go:33-38 | a non-empty `[]int` list ends in ",)" and its numbers parse back to the input |
| OsMask.GetOsListByValue | sqlite.go:476-492 | the decoded list is the labels of the set bits 1, 2 and 4, in that order |
| OsMask.LabelsOfMembership | sqlite.go:476-492 | a label is listed exactly when its bit is set; at most three labels, all from the table, in bit order |
| OsMask.MaskOfLabelsOf | sqlite.go:476-492 | re-encoding the decoded list gives the low three bits of the value |
| OsMask.SameLabels | sqlite.go:476-492 | two values decode alike exactly when their low three bits agree, so higher bits are ignored |
| OsLinks.AddOsToTag | sqlite.go:208-214 | the label pair is added when the tag has a row; otherwise a foreign-key error and no change |
| OsLinks.AddOsToCollection | sqlite.go:250-256 | as for tags, on `collection_os` |
| OsLinks.AddOsToCommand | sqlite.go:292-298 | as for tags, on `command_os` |
| OsLinks.RemoveAllOsFromTag | sqlite.go:217-223 | every label pair of the tag goes; nothing else changes |
| OsLinks.RemoveAllOsFromCollection | sqlite.go:259-265 | every label pair of the collection goes; nothing else changes |
| OsLinks.RemoveAllOsFromCommand | sqlite.go:301-307 | every label pair of the command goes; nothing else changes |
| OsLinks.GetTagOss | sqlite.go:226-247 | exactly the tag's labels, each once |
| OsLinks.GetCollectionOss | sqlite.go:268-289 | exactly the collection's labels, each once |
| OsLinks.GetCommandOss | sqlite.go:310-331 | exactly the command's labels, each once |
| OsLinks.OsLinkRoundTrip | sqlite.go:208-223 | an added label is reported by the reader, and remove-all leaves the owner none and other owners theirs |
| TagRepo.TagCreatedExact | sqlite_tag.go:40-80 | a created tag has a fresh id and exactly its listed labels and commands; other tags keep theirs; the foreign keys still hold |
| TagRepo.InsertTagOsEach | sqlite_tag.go:58-68 | the label loop adds all pairs, and fails only when the tag has no row |
| TagRepo.DeleteStaleTagOs | sqlite_tag.go:290-297 | the loop deletes exactly the old labels that are not listed again |
| TagRepo.InsertCommandTagEach | sqlite_tag.go:70-82 | the command loop adds all pairs, and fails exactly when a listed command has no row |
| TagRepo.DeleteStaleCommandTags | sqlite_tag.go:307-314 | the loop deletes exactly the old command links that are not listed again |
| TagRepo.CreateTag | sqlite_tag.go:12-85 | a duplicate live name fails with no change; otherwise success exactly when every listed command exists, else full rollback; stamps, zero search count, id = counter + 1 |
| TagRepo.GetCommandIdNamesByTagId | sqlite_tag.go:396-423 | every command linked to the tag, with its name, once each, deleted commands included |
| TagRepo.GetTag | sqlite_tag.go:88-122 | id 0 refused; missing or deleted tag not found; otherwise the row with exactly its labels |
| TagRepo.LatestExists | sqlite_tag.go:164 | any non-empty set of tags has one created no earlier than the others, so descending order exists |
| TagRepo.LatestFirst | sqlite_tag.go:164 | the ids are listed once each, by descending creation time |
| TagRepo.GetTags | sqlite_tag.go:125-221 | exactly the live tags passing the name, id and label filters, each once, newest first, with their linked commands |
| TagRepo.TagUpdatedExact | sqlite_tag.go:275-314 | after an update the tag has exactly the listed labels and commands; other tags and every search count are untouched |
| TagRepo.UpdateTag | sqlite_tag.go:224-319 | success exactly when the foreign keys of all new links hold; then row (if live) and links are replaced; otherwise full rollback |
| TagRepo.DeleteTag | sqlite_tag.go:322-367 | id 0 refused; any other id succeeds, marking a live row deleted and removing all the tag's links |
| TagRepo.TagDeletedExact | sqlite_tag.go:322-367 | the deleted tag is not live and has no links, other tags are untouched, and deleting again changes nothing |
| TagRepo.GetTagIdNames | sqlite_tag.go:369-394 | the (id, name) pairs of exactly the live tags, once each |
| CollectionRepo.CollectionCreatedExact | sqlite_collection.go:22-72 | a created collection has a fresh id and exactly its listed labels and commands; other collections keep theirs |
| CollectionRepo.SameNameAllowed | sqlite_collection.go:11-46 | no name is checked: the new row may share the name of any existing collection, which keeps its row and its liveness |
| CollectionRepo.CreatedCollectionHidden | sqlite_collection.go:31-34 | the created row's `deleted_at` is the bound string, never NULL, so the new collection is never live and no listing filter matches it, while every other collection stays as live as it was |
| CollectionRepo.InsertCollectionOsEach | sqlite_collection.go:48-58 | the label loop, also the update's loop of `AddOSToCollectionSQLite`, adds all pairs; it fails only when the collection has no row, and then changes nothing |
| CollectionRepo.InsertCommandCollectionEach | sqlite_collection.go:60-72 | the command loop adds all pairs, and fails exactly when a listed command has no row |
| CollectionRepo.CreateCollection | sqlite_collection.go:11-80 | success exactly when every listed command exists; otherwise full rollback; stamps, zero search count, id = counter + 1; the row stores the struct's `DeletedAt` string as a non-NULL `deleted_at` |
| CollectionRepo.GetCollection | sqlite_collection.go:83-118 | id 0 refused; missing or deleted not found; otherwise the row with exactly its labels |
| CollectionRepo.GetCollections | sqlite_collection.go:121-175 | every live matching collection occurs once per label row passing the OS filter, and nothing else occurs |
| CollectionRepo.CollectionUpdatedExact | sqlite_collection.go:178-203 | after an update the collection has exactly the listed labels, other collections theirs, and no command link changes |
| CollectionRepo.UpdateCollection | sqlite_collection.go:178-203 | fails only when labels are given for an id with no row, and then nothing changed; otherwise live row overwritten and labels replaced |
| CollectionRepo.DeleteCollection | sqlite_collection.go:206-229 | success exactly when the collection was live; it is then marked deleted and its links stay; otherwise not found |
| CollectionRepo.GetCollectionIdNames | sqlite_collection.go:231-256 | the (id, name) pairs of exactly the live collections, once each |
| CommandLinks.AddTagToCommand | sqlite.go:497-521 | zero ids refused, then a missing or deleted tag is not found, then a missing command fails its foreign key; otherwise exactly the one pair is added |
| CommandLinks.RemoveTagFromCommand | sqlite.go:524-543 | zero ids refused; otherwise exactly the one pair is removed |
| CommandLinks.RemoveAllTagsFromCommand | sqlite.go:546-562 | zero id refused; otherwise every tag link of the command goes |
| CommandLinks.AddCollectionToCommand | sqlite.go:714-738 | as for tags, with a live collection |
| CommandLinks.RemoveCollectionFromCommand | sqlite.go:741-760 | zero ids refused; otherwise exactly the one pair is removed |
| CommandLinks.RemoveAllCollectionsFromCommand | sqlite.go:763-779 | zero id refused; otherwise every collection link of the command goes |
| CommandLinks.RemovalExact | sqlite.go:524-562 | removing one pair changes only that command's set by that value; removing all leaves the command none and others theirs |
| CommandLinks.GetCollectionIdsByCommandId | sqlite.go:782-814 | id 0 and only id 0 is refused; every other id succeeds with exactly the command's collections, deleted ones included, each once |
| CommandLinks.Placeholders | sqlite.go:602-611 | the placeholder list alternates "?" and ",", starting and ending with "?", of length 2n-1 |
| CommandLinks.PlaceholderCounts | sqlite.go:602-611 | the list holds exactly n "?" and n-1 "," |
| CommandLinks.BuildInQuery | sqlite.go:602-611 | the query is the prefix, n placeholders and ")", with exactly one `?` per argument, and the arguments are the ids in input order |
| CommandLinks.GetTagIdsByCommandIds | sqlite.go:596-632 | no ids give an empty map; otherwise each listed command with tags maps to exactly its tags, and the others are absent |
| CommandLinks.GetCollectionIdsByCommandIds | sqlite.go:634-670 | the same for collections |
| CommandLinks.GetCommandOssByCommandIds | sqlite.go:672-709 | the same for labels |
| CommandLinks.FillCommandRelations | sqlite.go:564-594 | each command gets exactly its tags, collections and labels, each once, and no other field changes |
| CommandRepo.CommandCreatedExact | sqlite_command.go:45-96 | a created command has a fresh id and exactly its listed tags, collections and labels; others keep theirs; the foreign keys hold when the targets exist |
| CommandRepo.CreatedCommandReadBack | sqlite_command.go:108-153 | reading a created command gives its fields with zero counters, no deletion and no associations |
| CommandRepo.InsertTagLinksEach | sqlite_command.go:62-70 | the tag loop adds all pairs, and fails exactly when a listed tag has no row (deleted tags pass) |
| CommandRepo.InsertCollectionLinksEach | sqlite_command.go:75-83 | the collection loop adds all pairs, and fails exactly when a listed collection has no row |
| CommandRepo.InsertCommandOsEach | sqlite_command.go:87-95 | the label loop adds all pairs, and fails only when the command has no row, changing nothing |
| CommandRepo.CreateCommand | sqlite_command.go:11-105 | a duplicate live name fails with no change; otherwise success exactly when all tags and collections exist, else full rollback; zero counters, stamps, id = counter + 1 |
| CommandRepo.GetCommand | sqlite_command.go:108-153 | id 0 refused; missing or deleted not found; otherwise the bare row with no associations |
| CommandRepo.LinkedLiveCommands | sqlite_command.go:160-197 | the join lists each live command once per link to a listed target and nothing else |
| CommandRepo.GetCommandsByTagIds | sqlite_command.go:155-199 | no ids give no commands; otherwise each live command once per tag of the list it carries |
| CommandRepo.GetCommandsByCollectionIds | sqlite_command.go:201-245 | no ids give no commands; otherwise each live command once per collection of the list it is in |
| CommandRepo.ListedPerLink | sqlite_command.go:160-164 | a command linked to two listed tags is listed at least twice |
| CommandRepo.MatchingCommands | sqlite_command.go:251-261 | the distinct rows: each live command passing the name and id filters, once |
| CommandRepo.GetCommands | sqlite_command.go:248-305 | every live command passing the name and id filters is listed once, with all its associations, exactly when some label row of any command passes the OS filter |
| CommandRepo.FilledRows | sqlite_command.go:300-304 | filling in the associations keeps every listed command's id and row, so the list still names each matching command once |
| CommandRepo.Accepted | sqlite_command.go:346-350 | the count of leading targets that are linked: all before it pass, the one at it is refused |
| CommandRepo.AcceptedFrame | sqlite_command.go:346-362 | which targets are refused depends only on the tag and collection rows and on which commands exist |
| CommandRepo.AddTagsEach | sqlite_command.go:346-350 | the tags before the first refused one are linked, and that refusal is returned |
| CommandRepo.AddCollectionsEach | sqlite_command.go:358-362 | the collections before the first refused one are linked, and that refusal is returned |
| CommandRepo.ReplaceTagLinks | sqlite_command.go:341-350 | the command's tags become the listed ones before the first refused tag |
| CommandRepo.ReplaceCollectionLinks | sqlite_command.go:353-362 | the command's collections become the listed ones before the first refused collection |
| CommandRepo.UpdateCommand | sqlite_command.go:308-365 | nil and id 0 refused with no change; otherwise the row (if live), labels, tags and collections are replaced phase by phase, stopping at the first failure |
| CommandRepo.UpdatePassIff | sqlite_command.go:308-365 | an update succeeds exactly when all listed tags and collections are live and non-zero and the command has a row (unless nothing is linked) |
| CommandRepo.UpdateExact | sqlite_command.go:320-362 | after a successful update the command has exactly the listed labels, tags and collections; other commands are untouched; the foreign keys hold |
| CommandRepo.UpdatedShape | sqlite_command.go:320-362 | a successful update replaced the row, the labels, the tags and the collections each by the full list, and every listed tag and collection exists |
| CommandRepo.UpdatedWellFormed | sqlite_command.go:341-362 | a successful update keeps every foreign key of the link tables |
| CommandRepo.UpdateKeepsEarlierPhases | sqlite_command.go:329-350 | when a tag is refused, the row and labels are already replaced and the command keeps only tags listed before the refused one |
| CommandRepo.CommandDeletedExact | sqlite_command.go:377-380 | the deleted command is no longer live, others are unaffected, all links stay, the foreign keys hold |
| CommandRepo.DeleteCommand | sqlite_command.go:368-396 | id 0 refused; success exactly when the command was live, so a second delete is not found |
| CommandRepo.GetAllCommandsIdNames | sqlite_command.go:399-427 | the (id, name) pairs of exactly the live commands, once each |
| AppTags.FirstLive | app_tag.go:55-56 | the position of the first live entry with the id; none before it matches |
| AppTags.UpsertedShape | app_tag.go:55-68 | an update edits the first live entry in place, keeping the length, or appends the stamped tag; all other entries are unchanged |
| AppTags.UpsertedFinds | app_tag.go:55-68 | after an update of a live tag, the search finds it at the same place, with the new name, description and time |
| AppTags.UpsertedIdempotent | app_tag.go:55-68 | repeating an update of a live tag at the same time changes nothing |
| AppTags.App.CreateTag | app_tag.go:23-34 | an empty name is refused with no change; otherwise the same as `CreateTagSQLite`: stamps and a zero search count on the result, the id drawn or kept, `Duplicate` for a taken name and `ForeignKeyViolation` for a missing command, and the tables changed only on success |
| AppTags.App.UpdateTag | app_tag.go:52-69 | the list becomes the upserted list, the caller's tag is stamped only when appended, and no error is returned |
| AppTags.App.DeleteTag | app_tag.go:72-76 | does nothing and succeeds |

## Left out

- Database opening, `PRAGMA`, index creation and the DDL of `createTables`
  (sqlite.go:24-203): the DDL only shapes the `Tables` datatype.
- `MigrateOSFieldsSQLite` and `CleanupOSFieldsSQLite`: one-off migrations
  of the legacy `os` column; only their decoder `getOSListByValue` is
  modelled.
- Storage-engine faults (prepare, query, scan, `rows.Err`, `LastInsertId`,
  commit): the model assumes they do not occur. This includes the ignored
  commit result in `CreateTagSQLite`.
- The SQL text, apart from the IN-list of util.go and the placeholder list of
  the batch getters. Names interpolated into `LIKE` and `IN` are assumed to
  hold no quote character, so the injection exposure is not modelled.
- `LIKE '%term%'` is modelled as plain substring containment. SQLite's `LIKE`
  also treats `%` and `_` in the term as wildcards and matches ASCII letters
  case-insensitively.
- The legacy `os` column of `commands` and `collections` is assumed to
  exist, as the migration queries imply, and its value is ignored.
  `GetCommandSQLite`, `UpdateCommandSQLite`, `GetCollectionSQLite` and
  `UpdateCollectionSQLite` name it and would fail on the schema
  `createTables` makes.
- `GetCommandsByTagIds` and `GetCommandsByCollectionIds` are modelled reading
  the nine columns `createTables` makes. Their `SELECT cmd.*` would return a
  tenth column where the legacy `os` column exists, and the scan would then
  fail.
- `GetCollections` reads the unqualified `os IN (...)` as a filter on
  `collection_os.os`. Where the legacy column exists the name is ambiguous
  and the statement would fail.
- Timestamps are clock values, not formatted strings. Go assigns string
  times to `time.Time` fields in several places, which does not compile; the
  model sidesteps that.
- `App.UpdateTag` takes the time as a parameter, since the application
  object has no store clock.
- `App.UpdateTag` holds tags by value. The Go slice holds pointers, so the
  appended tag is the caller's own struct and later edits through either
  name are shared; that aliasing is not modelled.
- `FillCommandRelations` writes into an array of command values. It does not
  model the sharing of `*Command` pointers beyond that array.
- Ids are unbounded naturals. The `uint64` limit and `int64` conversion of
  `LastInsertId` are not modelled.
- A nil slice and an empty slice are both the empty sequence. The nil map
  entries that `FillCommandRelations` assigns are empty sequences too.
- The `Sort` field of the listing option is not read by any store function
  and is not modelled.
- app.go, app_command.go, app_collection.go and app_status.go: UI dispatch
  and thin forwards or stubs outside the store. app_tag.go's `GetTag` and
  `GetCommandsByTagId` are plain forwards or stubs and are not modelled.
- The generated TypeScript models and the test files are not part of this
  model.
- Concurrency: the store is modelled as used by one caller at a time, with
  no concurrent writers.
- TagRepo.GetTags: returns the full list where the Go call, by this reading
  of the code, blocks. The pool is limited to one connection
  (sqlite.go:36). `GetTagsSQLite` keeps its rows open on that connection
  (sqlite_tag.go:175-180) while, for each matching row, it calls
  `GetCommandIDsByTagIDSQLite` (sqlite_tag.go:205), whose `DB.Query`
  (sqlite_tag.go:402) waits for a second connection. So the call does not
  return whenever a row matches. The model lists each tag with its commands
  as the code evidently intends; the blocking is not modelled.
