# grm-rs: verified models of its core protocols

A Dafny 4.11 model of the parts of the graph toolkit whose correctness is least visible from
any one function. Every file holds one module (`FileStore.dfy` the module `FileStores`,
`GraphQuery.dfy` the module `GraphQueries`); `dafny verify dfyconfig.toml` checks them all.

| Files | What they model |
|---|---|
| `GraphQuery`, `CypherSyntax`, `CypherTranslate`, `CypherMeaning`, `CypherTheorem`, `CypherExamples` | the compiler from graph queries to Cypher: the string-building translator, a syntax tree with printer and parser for the emitted fragment, a meaning for both sides, the theorem that they agree, and the statements the repository's own tests expect |
| `FileReplace`, `FileStore` | crash-atomic file replacement: a disk whose entries and bytes become durable only when synced, the write as a state machine, and the functions as methods over it |
| `SchemaCatalog`, `SchemaLocks`, `SchemaRecovery`, `SchemaMemory`, `DurableLog`, `LogDisk` | schema memory: the catalog and its log, the two-mutex protocol with its files as a step relation and its invariant, what that guarantees over runs and where it fails, the handlers as methods taking those steps, the log as bytes, and the log on a disk that loses what was not synced |
| `ServiceRetry` | the reopen-and-retry client against a service that forgets handles and loses replies |
| `ContainerMap`, `GraphElements`, `TileLayout` | region ownership, the graph drawn with collapsed regions contracted, and the tile layout |
| `FilterSnapshot`, `GraphStore`, `Profiles` | the snapshot filter, the store with its derived fields, and its connection profiles |
| `Utf8`, `TableWidth` | the table printer and its escape-aware width scanner |
| `Base64`, `PropertyCodec` | the property codec between JSON and service messages |
| `Prelude`, `Orders` | shared datatypes, decimal numerals, and strict total orders with sorting |

Code the source writes as loops or as updates of an object is a method or a class proved
against a function; the lemmas then say what that function means. Functions of the host
language or of its libraries are parameters: trimming, lower-casing and JSON rendering, locale
and code-unit order, number parsing, canonical forms of decimals, dates, durations and uuids,
the serialised form of a log record, settings cleaning. Where a law of such a parameter is
used it is a named precondition (`HostLaws`, `StrictTotal`, `Codec`, `Unglued`, `ComparesIds`).

Where the code and what one would expect of it differ, the code is modelled, the exact condition
is proved, and an input or run that fails is exhibited:

- `bound_vars` drops only consecutive repetitions, so a node match that does not directly
  follow its hop yields a repeated RETURN column (`CypherTheorem.ColumnsDistinct`,
  `CypherTheorem.DisplacedMatchRejected`).
- The translator drops a node match that no hop ends in, yet returns its variable
  (`CypherTheorem.ExecutableExactly`, `CypherTheorem.DetachedMatchRejected`).
- The translator never reads where a hop starts, so a branching query is translated as a
  chain (`CypherTheorem.ChainExact`, `CypherTheorem.BranchMistranslated`).
- Recovery ignores a torn log record but leaves it in the file, so the next record appended,
  though acknowledged, makes the log unreadable until a checkpoint removes it
  (`SchemaRecovery.AckedSurvivesExactly`, `SchemaRecovery.TornTailLosesAcked`,
  `DurableLog.AppendBehindTail`, `DurableLog.TornLogUnreadable`).
- An append syncs the directory only if it created the log. If that sync fails the next append
  returns Ok without one, and a crash of the machine may lose the whole log
  (`LogDisk.MachineCrashExactly`, `LogDisk.UnlinkedLogLosesAcked`).
- A definition whose append failed stays in memory, so an edge model on it can be logged and
  recovered without its endpoint (`SchemaRecovery.EdgeLoggedExactly`,
  `SchemaRecovery.FailedAppendLosesEndpoint`).
- Drawn edges get the id `e` plus their own, which a node may already have
  (`GraphElements.ElementIdsUnique`, `GraphElements.ElementIdsCollide`).
- A schema model with an empty name can be selected but shows no item
  (`GraphStore.VisibleHasItem`, `GraphStore.UnnamedModelHasNoItem`); a schema edge whose model
  name has a colon is not found by its own drawn id (`GraphStore.SchemaEdgeIdExact`,
  `GraphStore.ColonedEdgeNotFound`). This system's own definitions admit neither name
  (`validate_model_name`, src/runtime/catalog.rs:400); only snapshots from elsewhere have them.
- Colouring a text that ends in a lone escape widens it (`TableWidth.ColourKeepsWidth`,
  `TableWidth.ColouredEscapeWidens`, `TableWidth.EscapedHeaderSticksOut`).
- Names that are not UTF-8 all share one backup file, and one log
  (`FileReplace.BackupsCollide`, `FileReplace.LogsCollide`, `FileReplace.TwoFilesOneBackup`).

The guarantees about recovery in `SchemaRecovery` and `SchemaMemory` are for deaths of the
process at any point, also inside an append; those of `FileReplace` and `LogDisk` are for crashes
of the machine, which lose whatever was not synced: of a file being appended to, any of the bytes
after those last synced.

Assumptions: service handles are never issued twice; `localeCompare` and code-unit order are
strict total orders; nodes of one snapshot have distinct ids where a lemma says so; no name in a
base file is both a node and an edge model, as this system writes none such; base64 decoding is
strict (sections 3.5 and 4 of RFC 4648); `rename` is atomic as in IEEE Std 1003.1.

## Model

| member | source | states |
|---|---|---|
| GraphQueries.Validate | src/dsl/graph.rs:163-201 | a query is rejected exactly when it has no clause, starts with a hop, or has a hop from a node not bound before it; each error says which |
| GraphQueries.HopLaws | src/backend/cypher.rs:160-169 | the meaning given to hops: out joins start to end, in is out turned round, either is one of the two, and a type only narrows |
| GraphQueries.LabelLaws | src/backend/cypher.rs:66-74 | without labels any node will do, and each label asks for one more |
| CypherTranslate.Translator.PushParam | src/backend/cypher.rs:20-27 | allocating a parameter yields the next decimal name and keeps the map equal to that of all conditions so far |
| CypherTranslate.PropertyPredicate | src/backend/cypher.rs:138-150 | for each comparison the text is the printed form of the predicate, bound to the parameter allocated for it |
| CypherTranslate.BuildPredicates | src/backend/cypher.rs:107-136 | id and property filters of the node matches in ascending variable order, then the where filters on the root, one text and one parameter each |
| CypherTranslate.AppendHop | src/backend/cypher.rs:92-100 | a hop is printed with the labels of the node match of its end, if it names any, in place of its own |
| CypherTranslate.BuildMatchPattern | src/backend/cypher.rs:76-105 | fails exactly without a leading node; otherwise the printed chain of the statement |
| CypherTranslate.GraphQueryToCypher | src/backend/cypher.rs:29-64 | the string-building code yields exactly the printed statement and its parameters, and on exactly the invalid queries fails with the error that says what is wrong |
| CypherSyntax.ParseNameShow | src/backend/cypher.rs:171-177 | a backtick-quoted name, backticks doubled, is read back from any following text that does not start with a backtick, as none emitted does |
| CypherSyntax.ParseRelShow | src/backend/cypher.rs:160-169 | a printed relationship of any direction and type is read back |
| CypherSyntax.ParsePredShow | src/backend/cypher.rs:107-150 | a printed predicate is read back with its variable, key, comparison and parameter |
| CypherSyntax.ParseShow | src/backend/cypher.rs:36-64 | parsing the printed text of any statement returning something recovers it: pattern, directions, predicates, parameters, columns, SKIP, LIMIT, for arbitrary names |
| CypherMeaning.ParamNamesDistinct | src/backend/cypher.rs:20-27 | parameter names of different indices differ |
| CypherMeaning.ParamsExact | src/backend/cypher.rs:20-27 | the parameter map binds the i-th predicate's parameter to the i-th condition's value, has one entry per condition and none unused |
| CypherMeaning.StepsMeanHops | src/backend/cypher.rs:89-102 | a chain pattern matches a row exactly when every hop holds of it, over all three directions |
| CypherMeaning.ClausesArePattern | src/backend/cypher.rs:66-105 | all match clauses hold exactly when the pattern and the node conditions do, under the rule that a node match's labels replace the hop's |
| CypherMeaning.CondsMeanFilters | src/backend/cypher.rs:107-136 | the AND-ed conditions hold exactly when every id filter, property filter and root filter does |
| CypherTheorem.ColumnsDistinct | src/dsl/graph.rs:145-161 | bound_vars removes only consecutive repetitions, so the returned columns are distinct exactly when every end's node match directly follows its hop |
| CypherTheorem.PatternVarsExact | src/backend/cypher.rs:76-105 | the pattern binds only variables the query introduces, nodes apart from relationships, and all of them exactly when no node match stands alone: the translator drops such a clause |
| CypherTheorem.ExecutableExactly | src/backend/cypher.rs:29-64 | for every valid query with distinct variables a server accepts the emitted statement (known variables, bound parameters, distinct columns and relationships) exactly when no node match stands alone and end matches follow their hops |
| CypherTheorem.DisplacedMatchRejected | src/dsl/graph.rs:145-161 | a valid chain of two hops whose statement a server rejects, because one end's node match comes after the next hop |
| CypherTheorem.DetachedMatchRejected | src/backend/cypher.rs:76-105 | a valid query whose statement a server rejects, because it returns the variable of a node match that the pattern leaves out |
| CypherTheorem.SameRows | src/backend/cypher.rs:29-136 | a row answers a linear query exactly when it matches the translated statement, on every graph, for every comparison with true, false and null, and both relationship-uniqueness rules |
| CypherTheorem.PagingIsSkipLimit | src/dsl/paging.rs:1-16 | offset and limit paging is SKIP followed by LIMIT, for out-of-range values too |
| CypherTheorem.TranslationFaithful | src/backend/cypher.rs:29-181 | for every linear valid query the text parses back to its statement, is executable under the exact condition above, and has exactly the query's results, paging included |
| CypherTheorem.ChainExact | src/backend/cypher.rs:76-105 | the emitted path says what the hops say on every graph exactly when each hop starts where the previous one ended: the translator never reads a hop's start |
| CypherTheorem.BranchMissed | src/backend/cypher.rs:76-105 | every valid query with distinct variables that is no chain has a graph and a row on which all its hops hold and the emitted path does not |
| CypherTheorem.BranchMistranslated | src/backend/cypher.rs:76-105 | such a query: two hops from one node, valid and yet mistranslated |
| CypherExamples.UserText | tests/cypher_translation.rs:12-47 | the statement and parameters for a root with id, property filters, offset and limit, as the test expects them |
| CypherExamples.AuthoredText | tests/cypher_translation.rs:50-101 | those for a hop outwards with filters on both ends |
| CypherExamples.AuthorText | tests/cypher_translation.rs:104-144 | those for an untyped hop inwards |
| CypherExamples.OddNames | tests/cypher_translation.rs:147-172 | backticks in labels and keys are doubled |
| FileReplace.TempNamesApart | src/fsutil.rs:80-95 | temporary names never equal the target or its backup, whichever is being written |
| FileReplace.BackupsCollide | src/fsutil.rs:52-64 | two files share a backup exactly when their names have one string form, as all names that are not UTF-8 do |
| FileReplace.LogsCollide | src/fsutil.rs:66-78 | two files share a log exactly when they share a backup |
| FileReplace.TwoFilesOneBackup | src/fsutil.rs:52-78 | two different files of one directory with one backup and one log between them |
| FileReplace.RunKeepsInv | src/fsutil.rs:6-43 | in every run of writes, failures and crashes the entries a crash may leave are complete versions |
| FileReplace.CrashSafe | src/fsutil.rs:6-33 | in every run and at every crash point both files hold one complete version each, and the backup's is never newer than the primary's |
| FileReplace.DurableUntilNextWrite | src/fsutil.rs:24-43 | once the primary's directory sync returned, every crash before the next write leaves that version: while the backup is written, after its failure and after earlier crashes too |
| FileStores.FileStore.OpenTemp | src/fsutil.rs:8-13 | creating the temporary file changes no other entry |
| FileStores.FileStore.WriteAll | src/fsutil.rs:14 | the bytes reach the temporary file piece by piece; after any number of pieces only that file's unsynced bytes have changed, and Ok means all are there |
| FileStores.FileStore.RenameTemp | src/fsutil.rs:18-20 | a failed rename leaves the target, and the temporary file gone or not; a successful one switches the target at once, durably only later |
| FileStores.FileStore.WriteFileAtomically | src/fsutil.rs:6-22 | at every step the target is all old or all new bytes; Ok means the new bytes are durable; Err leaves the visible file unchanged except when only the directory sync failed |
| FileStores.FileStore.WriteFileAtomicallyWithBackup | src/fsutil.rs:24-33 | Ok means both files durably hold the new bytes; if only the backup fails the primary still durably holds them |
| FileStores.AllOldOrAllNew | src/fsutil.rs:6-22 | what the method promises of directory entries means, for a reader after a crash, all of the old bytes or all of the new |
| FileStores.NewestSurvives | src/fsutil.rs:35-43 | a primary that is the newest version in every entry a crash may leave survives every crash |
| SchemaCatalog.DefineExactly | src/runtime/session.rs:917-931 | over every catalog a node model is accepted exactly if its name is free, an edge model exactly if its name is free and both ends are node models; the catalog then holds what it held and that model, nothing else; a refusal names its own case, ends before names |
| SchemaCatalog.DefineAllExactly | src/runtime/neo4j.rs:292-319 | a batch's definitions succeed exactly if each is acceptable after those before it, and then add exactly their models; otherwise the first that is not says why |
| SchemaCatalog.DefineAllGrows | src/runtime/session.rs:917-997 | definitions only add models, keep node and edge names apart, and keep every edge model's endpoints defined |
| SchemaCatalog.ReplayOfDefine | src/runtime/session.rs:5655-5693 | replaying the record of a definition that succeeded does exactly what the definition did |
| SchemaCatalog.ReplayEntryExactly | src/runtime/session.rs:5655-5693 | a log record is skipped if a model of its kind and name is there, refused if one of the other kind has the name, and applied otherwise, ends or no ends |
| SchemaCatalog.ReplayOverNewBase | src/runtime/session.rs:5585-5602 | replaying a log over a base that already holds all of it changes nothing: a checkpoint that wrote the base but left the log is harmless |
| SchemaCatalog.ReplayWithin | src/runtime/session.rs:5655-5693 | replaying records the live catalog holds never fails and never goes beyond it |
| SchemaCatalog.ReplayOfBatch | grm-mcp/src/server.rs:414-427 | logging a committed batch record by record replays to the catalog it installed |
| SchemaCatalog.EdgeRecordExactly | src/runtime/session.rs:5655-5693 | replaying an edge record keeps every edge model's endpoints defined exactly when its own are, or it was there already |
| SchemaMemory.SchemaState.Initialize | grm-mcp/src/server.rs:526-539 | with a base file and no log memory is that base, with no file an empty base is written and memory is empty; files and memory are in step |
| SchemaMemory.SchemaState.ReplayAll | src/runtime/session.rs:5585-5602 | the record-by-record loop computes the replay and stops at the first record that fails |
| SchemaMemory.SchemaState.Recover | grm-mcp/src/server.rs:526-539 | with a base on disk a start succeeds exactly when every complete line of the log decodes, and then memory is what the files give back; a torn tail stays in the log |
| SchemaMemory.SchemaState.AppendOne | src/runtime/durability.rs:21-41 | an append adds its line and returns Ok, or fails having added nothing, part of the record, or the whole line; behind a torn tail the line does not decode |
| SchemaMemory.SchemaState.AppendOps | grm-mcp/src/server.rs:414-427 | the per-record append loop leaves all records, or on failure a prefix of them with or without the failed one, and memory, base and acknowledgements as they were |
| SchemaMemory.SchemaState.DefineModel | grm-mcp/src/tools.rs:170-183 | in any reachable world: a definition is refused exactly if its name is taken or an end is no node model, for that reason, changing nothing; otherwise it is live, and acknowledged exactly on Ok, when its line is in the log; if files and memory were in step without a torn tail they still are |
| SchemaMemory.SchemaState.StageBatch | src/runtime/neo4j.rs:292-319 | staging stops at the first definition the copy rejects, otherwise gives the catalog with all of them |
| SchemaMemory.SchemaState.Batch | grm-mcp/src/tools.rs:796-809 | a batch is applied exactly if it commits and each definition is acceptable after those before it; if not it changes nothing; if so the catalog gains exactly its models, and it is acknowledged exactly if all its records were logged |
| SchemaMemory.SchemaState.Checkpoint | src/runtime/session.rs:716-727 | it may fail before the base is replaced or before the log goes; once the base is written the files give back the live catalog whenever the remaining log can be read, whatever had failed before |
| SchemaMemory.InStepExactly | grm-mcp/src/server.rs:414-427 | between calls the files give back the live catalog exactly when nothing live lacks its record and every line can be read |
| SchemaLocks.RunKeepsInv | grm-mcp/src/tools.rs:796-809 | in every interleaving, with failed appends, torn records, deaths and restarts, each lock is held by the thread whose position says so, a batch's snapshot stays the live catalog, and the files hold nothing the live catalog lacks |
| SchemaRecovery.NoDefinitionLost | grm-mcp/src/tools.rs:796-809 | no step of any thread removes or changes a definition of the live catalog |
| SchemaRecovery.BatchOverwritesItsSnapshot | grm-mcp/src/tools.rs:796-809 | while a batch runs without the state lock the live catalog stays its snapshot, so the staged copy it installs is the snapshot plus its own definitions, and a batch that gives up leaves the catalog it found |
| SchemaRecovery.UnreadableExactly | src/runtime/durability.rs:52-85 | the log cannot be read exactly when some record was put behind a torn tail since the log was last removed |
| SchemaRecovery.AckedSurvivesExactly | grm-mcp/src/tools.rs:170-183 | a definition acknowledged with Ok is recovered, in every later world of every run, exactly as long as no record was put behind a torn tail since the log was last removed; in memory it stays throughout |
| SchemaRecovery.ReplayEqualsLiveExactly | grm-mcp/src/tools.rs:796-809 | whenever no writer holds the schema lock, base and log replay to the live catalog exactly when no failed append left a definition without its record and none was put behind a torn tail |
| SchemaRecovery.EveryPrefixRecovers | grm-mcp/src/server.rs:414-427 | as long as no append failed or landed behind a torn tail since the log was last removed, with all endpoints defined then, the log can be read and every prefix of it replays to a catalog with all endpoints |
| SchemaRecovery.EveryPrefixRecoversExactly | grm-mcp/src/server.rs:414-427 | whatever failed before, as long as the log can be read, every prefix of it replays to a catalog with all endpoints exactly when the base has them all and each edge record finds its endpoints, or its own model, in what the records before it replay to |
| SchemaRecovery.EdgeLoggedExactly | src/runtime/session.rs:5655-5693 | in any reachable world whose recovery has all endpoints, logging a live edge model keeps that exactly when both its endpoints are recovered, or the edge model was recovered already |
| SchemaRecovery.AckedEndpointsSuffice | src/runtime/session.rs:917-931 | an edge model whose endpoints' own definitions returned Ok is safe to log |
| SchemaRecovery.SomeThreadCanStep | grm-mcp/src/tools.rs:87-101 | with an unfinished call around, some thread can always step: the locks are taken in one order |
| SchemaRecovery.FailedAppendLosesEndpoint | grm-mcp/src/server.rs:414-427 | for every node model and edge model on it there is a run in which the node's append fails, the edge model is acknowledged, and recovery has it without its endpoint |
| SchemaRecovery.TornTailLosesAcked | src/runtime/durability.rs:21-41 | for any two node models there is a run in which the process dies inside the first one's append and starts again, the second is acknowledged, and the files can no longer be read |
| SchemaRecovery.ScanReadsLog | src/runtime/durability.rs:52-85 | the byte scan of the log reads exactly the records the protocol's lines stand for, or fails exactly when one does not decode, whatever torn tail follows |
| DurableLog.ReadOperations | src/runtime/durability.rs:52-85 | the scan reads complete lines, skips blank ones, ignores an unterminated last line, and fails on a malformed complete one |
| DurableLog.BlankSkipped | src/runtime/durability.rs:71-76 | a blank line before others is skipped, whatever space it holds |
| DurableLog.BlankLines | src/runtime/durability.rs:74-76 | blank is ASCII whitespace, without the vertical tab |
| DurableLog.ReadAfterRecords | src/runtime/durability.rs:52-85 | what follows complete records is read as if it stood alone |
| DurableLog.TornAppend | src/runtime/durability.rs:21-41 | a crash after any number of bytes of an append recovers the log without the record, or with it once the newline is there |
| DurableLog.AppendBehindTail | src/runtime/durability.rs:21-41 | a torn tail is ignored by recovery but stays in the file; a record appended behind it, and with it the log, can be read exactly if the tail is blank |
| DurableLog.DeathThenAppend | src/runtime/durability.rs:21-41 | a death inside an append, a recovery and one more append make the log unreadable |
| DurableLog.BitsMeetTheLaws | src/runtime/durability.rs:28-33 | the laws asked of a record codec are met by a codec written out in full |
| DurableLog.TornLogUnreadable | src/runtime/durability.rs:21-41 | five bytes that such appends leave and that recovery refuses |
| LogDisk.RunKeepsInv | src/runtime/durability.rs:21-50 | in every run of appends, removals, failures and machine crashes what was acknowledged is in the log and on the medium |
| LogDisk.PendingExactly | src/runtime/durability.rs:23-39 | the directory entry of a log may be lost in a crash exactly when the log was created and the directory has not been synced since |
| LogDisk.MachineCrashExactly | src/runtime/durability.rs:21-41 | every crash of the machine leaves the log with all that was acknowledged exactly as long as nothing was, or the directory was synced since the log was created |
| LogDisk.AckedRecordsRead | src/runtime/durability.rs:52-85 | after such a crash recovery begins with the records acknowledged, and reads what follows as if it stood alone |
| LogDisk.UnlinkedLogLosesAcked | src/runtime/durability.rs:37-39 | for any record there is a run in which the directory sync of the append that creates the log fails, the next append returns Ok without one, and a crash loses both |
| LogDisk.LogFile.AppendOperation | src/runtime/durability.rs:21-41 | Ok means the record and its newline end the log and are on the medium, and no crash takes them away if this call created the log or the directory was synced before; an error leaves all, part or none of the record |
| LogDisk.LogFile.ClearLog | src/runtime/durability.rs:43-50 | Ok means the log is gone, and for a log that was there, gone from every crash too; an error leaves it as it was or gone until a crash |
| ServiceRetry.UnknownHandleNames | grm-service-api/src/lib.rs:352-354 | the unknown-handle refusal identifies the handle refused |
| ServiceRetry.WorkspaceService.ExecuteWorkspace | grm-service-api/src/lib.rs:1050-1064 | the handle is looked up before the request is taken up, so an unknown handle means nothing was done; success means it was carried out whole, a runtime error that it was taken up in part or not at all |
| ServiceRetry.ServiceBackend.Execute | grm-mcp/src/service.rs:453-487 | over all faults and whatever other clients do between the attempts, a call has its request taken up at most once more, carried out whole if it returns Ok, and no other request of its own touched; it returns the service's answer to that request over the handle it then holds, or the last attempt's error, or that of the reopening; a second attempt follows only one that did nothing, and a forgotten handle alone is recovered from in one call |
| ServiceRetry.AppliedBetween | grm-mcp/src/service.rs:453-487 | over any run of calls among other clients a request is carried out at least as often as it was acknowledged and taken up at most as often as it was sent |
| ContainerMap.FindFreshId | grm-flight-deck/src/containerMap.ts:48-52 | the prefixing loop ends, with an unreserved id |
| ContainerMap.FreshIdExact | grm-flight-deck/src/containerMap.ts:48-51 | the id has the fewest prefixes that leave it unreserved |
| ContainerMap.CollectRule | grm-flight-deck/src/containerMap.ts:25-36 | one pass over the edges adds each parent's children under a rule, keeping the rule of parents already there |
| ContainerMap.CollectCandidates | grm-flight-deck/src/containerMap.ts:23-36 | the candidates are those of the rules in key order, whatever order the edges were sorted into |
| ContainerMap.Build | grm-flight-deck/src/containerMap.ts:18-66 | the loops compute the container map of the snapshot; each region's id is its anchor's under the fewest prefixes that leave no node and no earlier region with it; anchors and members come in order |
| ContainerMap.ChildrenExact | grm-flight-deck/src/containerMap.ts:25-36 | a candidate's children are exactly the targets of the edges some rule applies to |
| ContainerMap.CandidatesExactly | grm-flight-deck/src/containerMap.ts:25-36 | a candidate contains exactly the other nodes that an edge of some rule's kind leads to from it, where the last nodes listed under the two ids have the models the rule asks for |
| ContainerMap.FirstRuleKept | grm-flight-deck/src/containerMap.ts:32-34 | a candidate keeps the first rule, in key order, that made it a parent, and has at least one child |
| ContainerMap.RuleOfLeastKey | grm-flight-deck/src/containerMap.ts:23-34 | a candidate is drawn by the rule of the least key among those that make it a parent |
| ContainerMap.OwnershipIsPartition | grm-flight-deck/src/containerMap.ts:38-65 | ownerByNode is exactly the union of disjoint, non-empty regions without repeated members, no anchor is a member, and each region is drawn as its anchor's rule says |
| ContainerMap.LeastAnchorOwns | grm-flight-deck/src/containerMap.ts:43-64 | a node that is no candidate is owned exactly when a candidate contains it, and then by the least such anchor |
| ContainerMap.AnchorsExactly | grm-flight-deck/src/containerMap.ts:43-64 | a candidate gets a region exactly when it is the least anchor of some node that is no candidate |
| ContainerMap.RegionIdsDistinct | grm-flight-deck/src/containerMap.ts:42-52 | region ids differ from every node id and from each other |
| ContainerMap.RegionIdsFromAnchors | grm-flight-deck/src/containerMap.ts:42-59 | so it is of the map itself, over every snapshot and rules |
| ContainerMap.PlainRegionId | grm-flight-deck/src/containerMap.ts:48-51 | a region's id is its anchor's under one prefix exactly if no node and no earlier region has that id |
| ContainerMap.EdgeOrderIrrelevant | grm-flight-deck/src/containerMap.ts:24-36 | any reordering or repetition of the snapshot's edges gives the same regions, members, owners and ids |
| GraphElements.Render | grm-flight-deck/src/GraphCanvas.tsx:546-627 | the pushing loops compute the drawing: regions, shown nodes, rerouted edges |
| GraphElements.MapFits | grm-flight-deck/src/GraphCanvas.tsx:48-50 | every container map built from a snapshot meets what the drawing demands of it |
| GraphElements.SkippedExact | grm-flight-deck/src/GraphCanvas.tsx:593-602 | an edge is skipped exactly when an end is unknown or both ends lie in one collapsed region |
| GraphElements.EdgesConserved | grm-flight-deck/src/GraphCanvas.tsx:592-626 | the kept edges are drawn each once, in order, under their own identity, between what stands for their ends; nothing else is drawn as an edge |
| GraphElements.NodesConserved | grm-flight-deck/src/GraphCanvas.tsx:568-591 | the nodes in no collapsed region are drawn each once, in order, under their own id and model, inside the open region that has them if there is one |
| GraphElements.RegionsConserved | grm-flight-deck/src/GraphCanvas.tsx:549-567 | each region is drawn once, in order, with its id, anchor, state and its anchor's model |
| GraphElements.KeptAll | grm-flight-deck/src/GraphCanvas.tsx:593-602 | with nothing collapsed and known ends every edge is kept, self-loops too |
| GraphElements.NodesRepresented | grm-flight-deck/src/GraphCanvas.tsx:549-570 | each node is drawn as itself or through its collapsed region |
| GraphElements.QuotientWellFormed | grm-flight-deck/src/GraphCanvas.tsx:546-627 | every drawn edge end and every parent is a drawn element, parents being open regions |
| GraphElements.ElementIdsUnique | grm-flight-deck/src/GraphCanvas.tsx:604-610 | element ids are unique exactly when no shown node has the id that a shown edge's element gets |
| GraphElements.ElementIdsCollide | grm-flight-deck/src/GraphCanvas.tsx:604-610 | a snapshot on which two drawn elements share an id |
| TileLayout.Layout.Place | grm-flight-deck/src/GraphCanvas.tsx:637-652 | one call moves the cursor by one tile and places its ids in the tile's grid |
| TileLayout.LayOut | grm-flight-deck/src/GraphCanvas.tsx:630-660 | the whole layout places the regions, then the leaves outside them |
| TileLayout.TilesApart | grm-flight-deck/src/GraphCanvas.tsx:637-652 | any two tiles are 80 apart sideways or downwards, for every number and size of groups, lanes included |
| TileLayout.RowsAreFull | grm-flight-deck/src/GraphCanvas.tsx:644-651 | two tiles have one top exactly when they fall in one row of the given number of columns |
| TileLayout.TilePlaced | grm-flight-deck/src/GraphCanvas.tsx:637-652 | the first tile is in the corner, the next of a row 80 beside the one before, the first of another row 80 below the tallest of the row before |
| TileLayout.TileSize | grm-flight-deck/src/GraphCanvas.tsx:638-640 | a tile is 310 wide with one column and else 80 and 160 for each, and 100 high and 100 for each row |
| TileLayout.PositionsExact | grm-flight-deck/src/GraphCanvas.tsx:641-643 | each id placed gets exactly one position, the slot of its place in its tile |
| TileLayout.RegionLaidOut | grm-flight-deck/src/GraphCanvas.tsx:653-655 | an open region lays its anchor and then its members out row by row from the corner of its tile, a collapsed one itself alone; a lane in one row, any other in one column, two up to four ids, and then three |
| TileLayout.LeafLaidOut | grm-flight-deck/src/GraphCanvas.tsx:656-658 | a node outside the regions has a tile to itself, after all regions, in order |
| TileLayout.PositionsSeparated | grm-flight-deck/src/GraphCanvas.tsx:637-652 | any two positions differ by at least 160 horizontally or 100 vertically |
| TileLayout.DrawingLaidOut | grm-flight-deck/src/GraphCanvas.tsx:630-660 | for a drawn snapshot the positions are those of exactly the visible leaves, and pairwise separated |
| FilterSnapshot.Apply | grm-flight-deck/src/api.ts:132-178 | the filter with its endpoint loop keeps, as often as listed, exactly the edges asked for or joining ids asked for, and the nodes whose id is asked for or on a kept edge; one that asks for nothing keeps everything |
| FilterSnapshot.FilterIsSubsequence | grm-flight-deck/src/api.ts:145-171 | nodes and edges are only left out, order kept |
| FilterSnapshot.IncludesExactly | grm-flight-deck/src/api.ts:180-208 | a text includes another exactly if that stands at some place of it |
| FilterSnapshot.MatchesAsked | grm-flight-deck/src/api.ts:136-150 | a node or edge matches exactly if it has the trimmed model, the trimmed and lower-cased text occurs in what describes it, and it has the property with the value in it, each only if asked for |
| FilterSnapshot.FilterExact | grm-flight-deck/src/api.ts:145-171 | what is kept, in full, from the filter as it is typed: membership and multiplicity of edges and nodes |
| FilterSnapshot.ModelFilterExact | grm-flight-deck/src/api.ts:145-150 | a filter by model alone keeps, of a snapshot without edges, exactly the nodes of that model |
| FilterSnapshot.FilterKeepsClosed | grm-flight-deck/src/api.ts:158-171 | a snapshot without dangling edges is filtered to one without |
| FilterSnapshot.FilterIdempotent | grm-flight-deck/src/api.ts:132-178 | filtering twice with one filter is filtering once, for every filter and snapshot |
| Profiles.StableExactly | grm-flight-deck/src/graphStore.ts:872-876 | the ids stableProfileId returns are exactly its fixed points, the slugs; it is idempotent |
| Profiles.SlugExactly | grm-flight-deck/src/graphStore.ts:872-876 | the id of a value is its runs of letters and digits, trimmed and lower-cased, in order, joined by single dashes, or the default if it has none |
| Profiles.FindUniqueProfileId | grm-flight-deck/src/graphStore.ts:878-891 | the unbounded loop ends, by pigeonhole, with an unused id |
| Profiles.FirstFreeExact | grm-flight-deck/src/graphStore.ts:885-890 | the id is the first unused numbered form, counting from 2 |
| Profiles.UniqueIsStable | grm-flight-deck/src/graphStore.ts:878-891 | a new id is a slug, so sanitizing never changes it, and unused |
| Profiles.RestorePersisted | grm-flight-deck/src/graphStore.ts:760-801 | reading back what was written keeps ids, names, order and the selected profile |
| Profiles.RestoreExactly | grm-flight-deck/src/graphStore.ts:760-801 | from any storage: nothing but a payload of version 1 with profiles and a selection is used, and then its profiles, sanitized, in order, with the first of the selected id, or the first of all, selected |
| Profiles.RestoreDistinctExactly | grm-flight-deck/src/graphStore.ts:780-798 | restored ids are distinct exactly when the stored ids have distinct slugs |
| GraphStore.DeriveAgrees | grm-flight-deck/src/graphStore.ts:495-516 | the recomputed fields agree with the base fields: filtered view, indexes, visible selection with the item that shows it, and the two boundary events first, once each, with their counts, and no idle event |
| GraphStore.DeriveIdempotent | grm-flight-deck/src/graphStore.ts:495-516 | deriveState is idempotent |
| GraphStore.VisibleHasItem | grm-flight-deck/src/graphStore.ts:518-622 | a visible selection has an item, except exactly the schema node without a name when no node bears that id |
| GraphStore.ItemShows | grm-flight-deck/src/graphStore.ts:518-580 | the item of a selection shows the first element listed under its id: caption, model and properties of a node or edge; fields, ends, and the first hint's caption of a schema model or edge |
| GraphStore.SelectableExactly | grm-flight-deck/src/graphStore.ts:606-622 | a selection is visible exactly if the snapshot lists what it names: a node or edge of the id, a schema model of the name after the prefix, a schema edge of the model between the colons |
| GraphStore.UnnamedModelHasNoItem | grm-flight-deck/src/graphStore.ts:518-550 | from any state, two actions reach a selection without an item |
| GraphStore.SchemaEdgeFoundExactly | grm-flight-deck/src/graphStore.ts:592-604 | a schema edge is found exactly when some schema edge has the model the id names: the one at the place the id names if that has it, or else the first |
| GraphStore.SplitExactly | grm-flight-deck/src/graphStore.ts:593 | splitting at colons gives the pieces without a colon that make up the id |
| GraphStore.SchemaEdgeIdExact | grm-flight-deck/src/graphStore.ts:592-604 | selecting a schema edge by the id it is drawn with finds that edge exactly when its model's name has no colon |
| GraphStore.NodesByIdExact | grm-flight-deck/src/graphStore.ts:467-470 | the index holds exactly the node ids, each under the last node listed with it |
| GraphStore.EdgesByIdExact | grm-flight-deck/src/graphStore.ts:467-485 | so does the index of the edges |
| GraphStore.NormalizedGivesBack | grm-flight-deck/src/graphStore.ts:467-485 | looking up every listed id gives the nodes back exactly when nodes with one id are one node |
| GraphStore.StepKeepsInv | grm-flight-deck/src/graphStore.ts:169-460 | every action keeps the derived fields in agreement and profile ids distinct slugs |
| GraphStore.EveryRunKeepsInv | grm-flight-deck/src/graphStore.ts:123-460 | so does every sequence of actions from every start on storage this store wrote, or none |
| GraphStore.InitialShows | grm-flight-deck/src/graphStore.ts:123-150 | an opened store shows the restored profiles, the selected one's name and settings, and an empty workspace |
| GraphStore.ReopenRestores | grm-flight-deck/src/graphStore.ts:760-801 | reopening after any run brings back the profiles, their order, their settings cleaned twice more, and the selected one |
| GraphStore.ProfilesAfter | grm-flight-deck/src/graphStore.ts:185-251 | saving changes the selected profile alone and keeps its id, creating appends one under a new id, removing leaves the selected one out, and no other action touches the profiles |
| GraphStore.ColonedEdgeNotFound | grm-flight-deck/src/graphStore.ts:592-604 | a schema edge with a colon in its model name that its own drawn id does not find |
| GraphStore.Store.SaveCurrentProfile | grm-flight-deck/src/graphStore.ts:185-202 | the selected profile gets the trimmed draft name, or the default one if that is empty, and the cleaned settings, under its old id and place; every other profile and the workspace stay; with none of that id nothing changes, in memory or storage |
| GraphStore.Store.CreateProfile | grm-flight-deck/src/graphStore.ts:203-220 | one profile is appended under an id no other has and selected with its settings, the others unchanged, the workspace left empty and unfiltered |
| GraphStore.Store.RemoveCurrentProfile | grm-flight-deck/src/graphStore.ts:221-234 | exactly the profiles of other ids remain, in order, nothing is selected and the workspace is empty; with none selected nothing changes |
| GraphStore.Store.Disconnect | grm-flight-deck/src/graphStore.ts:235-237 | the workspace is left empty, the filter cleared, the profiles and their selection kept |
| GraphStore.Store.SelectProfile | grm-flight-deck/src/graphStore.ts:238-251 | a known id is selected with its profile's name and settings and the workspace left empty; an unknown id changes nothing, in memory or storage |
| GraphStore.Store.ApplyGraphFilter | grm-flight-deck/src/graphStore.ts:252-254 | the same snapshot is shown through the new filter, and the selection stays exactly when it is still shown |
| GraphStore.Store.LoadSnapshot | grm-flight-deck/src/graphStore.ts:268-280 | the snapshot is shown through the filter already set, the selection stays exactly when it is shown, and of the events only the snapshot's own remain |
| GraphStore.Store.SelectGraphItem | grm-flight-deck/src/graphStore.ts:304-306 | the selection becomes the asked one exactly when the filtered snapshot has it, its item shows what is selected, and nothing else changes |
| GraphStore.Store.LoadVisualProjection | grm-flight-deck/src/graphStore.ts:281-286 | the hints change, the item of the selection shows their captions, and nothing else changes |
| GraphStore.Store.ApplyQueryResponse | grm-flight-deck/src/graphStore.ts:358-400 | the result is the snapshot, unfiltered and nothing selected; the new boundary events come first, the earlier ordinary events next in order, the query's own last; profiles stay |
| GraphStore.Store.RecordQueryExecution | grm-flight-deck/src/graphStore.ts:401-440 | with a snapshot loaded one event is added at the end and noted as the last query, nothing else changes; without one nothing does |
| GraphStore.Store.ApplyExecutionEvent | grm-flight-deck/src/graphStore.ts:441-443 | with a snapshot loaded the event is added at the end unless it poses as a boundary or idle event, which recomputing drops; without one the idle event goes |
| TableWidth.SkipSequence | grm-cli/src/main.rs:1381-1390 | the byte loop inside a control sequence ends just after its final byte, at a character boundary |
| TableWidth.ScanWidth | grm-cli/src/main.rs:1374-1403 | the byte scanner ends, slices only at character boundaries and computes the visible width of the text |
| TableWidth.WidthConcat | grm-cli/src/main.rs:1374-1403 | visible width adds over concatenation once the scan's state at the seam is known |
| TableWidth.ColourKeepsWidth | grm-cli/src/main.rs:1365-1371 | colouring keeps the visible width exactly when it is off or the text does not end in a lone escape |
| TableWidth.FormatBorder | grm-cli/src/main.rs:1290-1298 | the loop builds the border of the columns |
| TableWidth.FormatRow | grm-cli/src/main.rs:1318-1329 | the loop builds the row, each cell padded by its visible width; cells beyond the widths are left out |
| TableWidth.RowShowsCells | grm-cli/src/main.rs:1318-1329 | every cell's text stands in the row, between spaces |
| TableWidth.Measure | grm-cli/src/main.rs:1268-1273 | the widths are the least that fit every cell and the header's byte length |
| TableWidth.WriteTable | grm-cli/src/main.rs:1261-1288 | the lines are border, header, border, the rows in order, border, at those widths |
| TableWidth.RowWidth | grm-cli/src/main.rs:1318-1329 | a row is as wide as its columns, plus what its cells outgrow them by, less what the sequences they leave open hide |
| TableWidth.LostNothing | grm-cli/src/main.rs:1318-1329 | a row hides no column exactly when every cell closes its sequences |
| TableWidth.HeaderFits | grm-cli/src/main.rs:1299-1317 | a header name outgrows its column only if it is coloured and ends in a lone escape |
| TableWidth.HeaderColours | grm-cli/src/main.rs:1299-1360 | with colours on property headers are blue, type headers green; without, or for plain ones, nothing is added |
| TableWidth.TableLinesUp | grm-cli/src/main.rs:1261-1329 | all lines of a table have one visible width exactly when every row is full, every cell closes its sequences, and what the header names gain makes up for what they hide; unless a name outgrows its column while another stays open, that is when the header is full, closed and fits |
| TableWidth.ColouredEscapeWidens | grm-cli/src/main.rs:1365-1371 | a lone escape takes no room and, coloured, four columns |
| TableWidth.EscapedHeaderSticksOut | grm-cli/src/main.rs:1261-1329 | a one-column table whose lines do not line up |
| Utf8.Examples | grm-cli/src/main.rs:1268-1273 | characters of one to four bytes, as in section 7 of RFC 3629 |
| Base64.DecodesExactly | grm-mcp/src/service.rs:1026-1037 | text decodes to bytes exactly when it is their canonical encoding |
| Base64.TestVectors | grm-mcp/src/service.rs:1026-1037 | the encodings of section 10 of RFC 4648 |
| PropertyCodec.AcceptedExactly | grm-mcp/src/service.rs:1021-1096 | exactly strings, booleans, integers within the signed 64-bit range, doubles, canonical base64 objects and typed-text objects are accepted; larger integers, null, arrays and other objects are rejected |
| PropertyCodec.RefusedExactly | grm-mcp/src/service.rs:1021-1096 | what is refused is refused for what it is: null, an integer too large, bytes that are not base64, or no primitive |
| PropertyCodec.TypedObjects | grm-mcp/src/service.rs:1026-1066 | which typed object becomes which message |
| PropertyCodec.ValueRoundTrip | grm-mcp/src/service.rs:779-811 | every accepted value decodes back to itself exactly when its typed text, if any, is canonical |
| PropertyCodec.MessageRoundTrip | grm-mcp/src/service.rs:779-811 | a message that decodes encodes back to itself exactly when it holds no non-finite double and only canonical text |
| PropertyCodec.DecodedExactly | grm-mcp/src/service.rs:779-811 | a message decodes exactly if it has a kind and its typed text a canonical form, which it becomes; exactly a double that is not finite becomes null |
| PropertyCodec.DecodeMap | grm-mcp/src/service.rs:766-777 | the inserting loop builds the object, later properties winning, and stops at the first failure |
| PropertyCodec.DecodeAllExactly | grm-mcp/src/service.rs:766-777 | the object holds each name listed, and no other, with what its last property decodes to, exactly if all properties decode; else the first that does not is reported |
| PropertyCodec.MapAcceptedExactly | grm-mcp/src/service.rs:1007-1019 | a map is accepted exactly when all its values are |
| PropertyCodec.EncodeMapExactly | grm-mcp/src/service.rs:1007-1019 | an accepted map becomes one property for each name, in the order of names; of one that is not the first refusal in that order is reported |
| PropertyCodec.MapRoundTrip | grm-mcp/src/service.rs:1007-1019 | an accepted map decodes back to itself exactly when its typed texts are canonical |

## Left out

- The in-memory executor: no claim is made that it agrees with the translated Cypher. It keeps rows by return variable and does not apply every filter; a comparison of unlike values is a parameter (`Comparison`) used on both sides of the theorem.
- Machine-width overflow of offset plus limit, which saturates in the source.
- Validation of model names and fields before a definition reaches the catalog, and schema templates switched off (no path configured).
- Graph data in the log: node and edge upserts, and batch records, are written by other commands; only schema records are replayed here.
- One machine for the base, the log and the lock protocol under crashes of the machine: what those do to the base is `FileReplace`, to the log `LogDisk`; the lock protocol's runs have deaths of the process only. A removed log that such a crash brings back is harmless over the new base as long as it can be read (`SchemaCatalog.ReplayOverNewBase`).
- The fallback to the backup file when the base does not parse; no crash in `FileReplace` leaves such a base.
- A torn tail that is blank: a record starts with a brace, so part of one is never blank. `SchemaLocks` therefore counts every torn tail as spoiling the next line, while `DurableLog` has both cases.
- The serialised forms of catalogs, log records and the browser's storage, which are taken to decode to what was encoded.
- Files outside one directory, targets without a file name, and the platform variant in which directories are not synced.
- Requests other than the generic execute call, and the other fields of responses and status codes.
- Which part of a request the runtime carried out before it failed: such work is recorded as partial, no more.
- Labels, colours, sizes, shapes and properties of drawn elements, and the schema view apart from the ids of its edges.
- The square root in the layout is the exact integer one; the source's is exact for every size a browser can hold.
- Property names inherited from the host language's object prototype when a filter looks a key up.
- Status texts, evidence and command texts, panels, switches and listeners of the store; actions that set only those are one action (`SwitchView`).
- How connection settings are cleaned (a parameter, not idempotent in the source): a reopened store has its settings cleaned twice more, whatever that makes of them; legacy settings are an input.
- Table output as a stream: the lines are returned; a row longer than the header, an index error in the source, is excluded.
- Canonical forms of decimals, dates, times, durations and uuids, and doubles beyond their identity as bit patterns.
- Networking, TLS, routing, command-line parsing, React and Cytoscape, benches, fixtures and help text: true but easy, or not about this code.
