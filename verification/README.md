# Verified model of the Forgeclaw store and configuration logic

Four parts of the Forgeclaw workspace carry its real logic, and each is modelled here together with
proofs that hold for every input, every run or every reachable state.

* **Message log** (`Queries`, `Messages`, `MessageLog`, `MessageSafety`, `MessageRefinement`,
  `MessageProgress`, `MessageStore`). Writers begin, take an advisory lock, draw a `seq`, write their
  row, commit and release, each as a separate atomic step; readers page by `seq > cursor` in between.
  The lock key is a parameter `key(transaction, group)`. The code uses a hash of the group, SQLite's
  single writer is a constant, and a key per transaction is the protocol without its lock.
* **Configuration tree** (`ConfigTree`, `EnvOverrides`, `Layering`). The deep merge of TOML layers, the
  writes made by environment variables, and the stack of user file, project file and environment. A
  tree is studied through what a path finds in it (`View`), which determines the tree.
* **Message sanitiser** (`Sanitizer`). The three find-and-replace passes that take connection URLs out
  of error text. The reference `Redact` reads its input once; the code searches its growing buffer again
  after every replacement.
* **Tasks** (`Tasks`, `TaskRuns`). The stored encodings, the due query, the recording of runs, and
  their interleavings.

`Outcomes` holds the optional values and the store's errors. The parts that the code writes as loops or as
in-place changes are methods and classes (`DeepMergeInPlace`, `SetNestedInPlace`, `ApplyEnvOverrides`,
`LoadLayered`, `RedactInPlace`, `SanitizeMessage`, `SanitizeFullChain`, `TaskTable`, `Database`), proved
against functions about which the laws are proved.

## What the code does not promise

* `crates/store/src/lib.rs:29-32` says that a reader of `seq = N` sees every smaller `seq` that will ever
  exist. Since locking is per group this is true within one group only. `AlwaysOrderedExactlyWhen` gives
  the exact condition, and `GroupKeysGuarantee` instantiates it: two groups are in commit order with each
  other if and only if their hashes collide. The wording at `crates/store/src/types/message.rs:65-69`
  ("a single key") has the same age.
* `crates/store/src/ops/messages.rs:20-24` says that inserts to different groups do not contend. Apart from
  clashing message ids this holds exactly when the hashes of the groups differ (`GroupsContendExactlyWhen`).
* `crates/store/src/error.rs:239-243` says that an entire match becomes one marker. When a URL contains
  another one whose scheme belongs to an earlier pass, the inner marker's `>` ends the outer token, so that
  `sqlite://postgres://x` becomes `<url-redacted>>` (`NestedUrlLeavesText`). `UrlIsOneMarkerExactlyWhen` and
  `UrlInContext` give the exact condition. `UrlResidue` and `TokenIsCutAtFirstUrl` say what is left in every
  case: at most two closing brackets, and no character of the URL.
* `crates/core/src/config/mod.rs:80-87` says that environment variables are applied on top of the files. A
  plain value on a proper prefix of a variable's path silently drops the variable as a whole
  (`BlockedWriteChangesNothing`); `ResolutionInClosedForm` gives the precedence with this exception. Nor does
  the text mention that the order of `std::env::vars` can show; `WritesCommuteExactlyWhen` says when it does.
* `deep_merge` is not associative (`MergeNotAssociative`); `MergeAssociativeExactlyWhen` says when it is.

## Model

| member | source | states |
|---|---|---|
| MessageLog.ReachableInv | crates/store/src/ops/messages.rs:57-86 | in every reachable state of any interleaving locks are exclusive, `seq` values are positive and distinct, commit order is `seq` order under each lock key, ids are unique, a failed insert found its id taken, and rows and committed transactions correspond one to one |
| MessageLog.StepKeepsInv | crates/store/src/ops/messages.rs:61-84 | each single database step keeps all of these invariants |
| MessageSafety.NoLateArrival | crates/store/src/types/message.rs:71-75 | cut any run anywhere: a row committed in the second part has a larger `seq` than every row of an agreeing group committed in the first part |
| MessageSafety.NothingArrivesBehindReader | crates/store/src/types/message.rs:73-75 | no row of a reader's group is ever committed at or below a cursor the reader has reached |
| MessageSafety.AlwaysOrderedExactlyWhen | crates/store/src/ops/messages.rs:20-29 | rows of two groups are committed in `seq` order in all runs if and only if any two different transactions writing to them take the same key |
| MessageSafety.ReadersExactExactlyWhen | crates/store/src/ops/messages.rs:20-29 | at every moment of every run each reader of a group has received exactly the committed rows of the group up to its cursor, in order and once each, if and only if the group's writers share a key |
| MessageSafety.GroupKeysGuarantee | crates/store/src/ops/messages.rs:46-71 | the code's per-group hash gives order and exact readers within every group for every hash; across two groups order holds exactly when their hashes collide |
| MessageSafety.WithoutLockReadersSkip | crates/store/src/ops/messages.rs:64-71 | without the lock step there is a run, for every group, in which a reader skips a committed row |
| MessageSafety.ReadDeliversNextSlice | crates/store/src/ops/messages.rs:94-114 | the cursor query on a table in order returns the next slice of the group's log, of the clamped length |
| MessageSafety.RunAppendsRows | crates/store/src/ops/messages.rs:73-84 | committed rows and received rows are never lost or changed by later steps |
| MessageRefinement.RunSimulates | crates/store/src/ops/messages.rs:57-114 | every interleaving of writers, rollbacks and readers is a history of append-only message lists, one per group, read front to back by position |
| MessageRefinement.StepSimulates | crates/store/src/ops/messages.rs:57-114 | a commit appends to the group's list, a read delivers the next messages, and every other step is invisible |
| MessageRefinement.SubscribersHavePrefixes | crates/store/src/types/message.rs:54-58 | in the list specification every subscriber always has a prefix of its list |
| MessageRefinement.CodeIsAppendOnlyLog | crates/store/src/ops/messages.rs:43-114 | the same for the code's keys and any hash, with every subscriber at a prefix of its list |
| MessageProgress.NoDeadlock | crates/store/src/ops/messages.rs:61-84 | in a reachable state every transaction is finished if and only if no transaction can take the code's next step |
| MessageProgress.WaitingIsRanked | crates/store/src/migrations/m20260411_000001_init.rs:94-100 | a transaction cannot take its next step exactly when it waits for a lock holder or for a written row with its id, and waiting always goes down in rank, so there is no cycle |
| MessageProgress.OtherGroupsDoNotBlock | crates/store/src/ops/messages.rs:20-24 | a transaction can always take its next step when no other open one shares its key or its id |
| MessageProgress.ContendExactlyWhen | crates/store/src/ops/messages.rs:20-24 | for any keys, writers of two groups with different ids can hold each other up if and only if two different transactions writing to them take the same key |
| MessageProgress.GroupsContendExactlyWhen | crates/store/src/ops/messages.rs:20-24 | writers of two groups with different ids can hold each other up if and only if the hashes of the groups collide |
| MessageProgress.RollbackLeavesNoTrace | crates/store/src/ops/messages.rs:61-84 | in every reachable state a transaction that has not committed can be abandoned; this changes no row, reader or other transaction, and nobody waits for it afterwards |
| MessageProgress.RunsAreBounded | crates/store/src/ops/messages.rs:61-84 | a run without new transactions has at most as many transaction steps as there was work left, whatever readers do in between, so all transactions come to an end |
| MessageProgress.EverybodyFinishes | crates/store/src/ops/messages.rs:61-84 | from every state that satisfies the invariants the open transactions can all finish without voluntary rollbacks |
| MessageProgress.EverySubmittedIdIsStoredOnce | crates/store/src/migrations/m20260411_000001_init.rs:85-100 | when open transactions run to their end without voluntary rollbacks, each submitted id is stored exactly once, whatever ids clash |
| MessageStore.Database.StoreMessage | crates/store/src/ops/messages.rs:57-86 | one call with arbitrary interference between its statements: success leaves the row committed after all earlier rows and above those under its key; failure means the id is taken |
| MessageStore.Database.GetMessagesSince | crates/store/src/ops/messages.rs:94-114 | one call returns exactly the next slice of the reader's log and changes nothing but the reader; a negative limit is an error and changes nothing at all |
| MessageStore.Database.AwaitTurn | crates/store/src/ops/messages.rs:64-82 | a wait for the lock or for the unique index ends, however finitely often anything else happens meanwhile, because whoever is waited for can go on |
| Queries.ClampedTakeBounds | crates/store/src/ops/mod.rs:23-47 | negative limits and only those are errors; the result is the request up to 10,000 and 10,000 above it, and positive for positive limits |
| Queries.SortIsAscending | crates/store/src/ops/tasks.rs:59-60 | the sort used by the queries is ascending whenever no two rows tie |
| Messages.PagesConcatenate | crates/store/src/ops/messages.rs:94-114 | on a fixed table any sequence of positive limits returns the next rows in order, as many as the clamped limits add up to |
| Messages.PagingDrains | crates/store/src/ops/messages.rs:94-114 | as many positive limits as there are rows deliver the whole group, independently of the page sizes |
| Messages.ShortPageIsLast | crates/store/src/ops/messages.rs:100-111 | a page leaves nothing behind exactly when the clamped limit covered what was there; a short page is the last |
| Messages.OnlyNegativeLimitsFail | crates/store/src/ops/messages.rs:94-114 | the cursor query fails with an invalid limit exactly on negative limits; otherwise it returns the first rows, no more than the limit and 10,000, and fewer only when there are no more |
| Messages.BeginningSeesEverything | crates/store/src/types/message.rs:85-91 | the initial cursor is 0 and selects every row of the group |
| Sanitizer.RedactInPlace | crates/store/src/error.rs:247-256 | the search-and-replace loop terminates although the buffer may grow, and computes the one-scan redaction |
| Sanitizer.SanitizeMessage | crates/store/src/error.rs:244-258 | the three passes in the code's order compute `Sanitize`, and no stretch of the output is `postgresql://`, `postgres://` or `sqlite://` |
| Sanitizer.UrlBecomesMarker | crates/store/src/error.rs:239-256 | a `postgresql://`, `postgres://` or `sqlite://` URL runs up to the next white space, quote, `>` or `)`, any other character belonging to it, and becomes `<url-redacted>`, with what follows sanitised on its own; the URL must not contain a scheme that is replaced earlier |
| Sanitizer.TerminatorsAre | crates/store/src/error.rs:250-252 | the characters that end a URL are the two quotes, `>`, `)` and the 25 white-space characters of Unicode, and no others |
| Sanitizer.SanitizeIsSchemeFree | crates/store/src/error.rs:244-258 | no input leaves any of the three schemes in the output |
| Sanitizer.PassRemoves | crates/store/src/error.rs:247-256 | one pass removes its own scheme and revives no scheme that was absent |
| Sanitizer.SanitizeFixesExactlyCleanText | crates/store/src/error.rs:244-258 | a text is returned unchanged if and only if it contains no scheme |
| Sanitizer.SanitizeIdempotent | crates/store/src/error.rs:244-258 | sanitising twice is sanitising once |
| Sanitizer.SanitizeSplits | crates/store/src/error.rs:250-252 | the text on the two sides of any terminator character is sanitised independently |
| Sanitizer.SanitizeDistributesOverJoin | crates/store/src/error.rs:172-180 | sanitising the joined layers is joining the sanitised layers |
| Sanitizer.ChainMessageConcatenates | crates/store/src/error.rs:172-180 | the message of a single layer is that layer sanitised, and the message of two chains put together is the message of the first, a bar between blanks, and the message of the second: no layer is lost, moved or changed |
| Sanitizer.SanitizeFullChain | crates/store/src/error.rs:172-180 | the walk over the error chain returns the sanitised join of the raw layers, free of schemes as a whole; before any layer it splits into the messages of the two parts |
| Sanitizer.UrlBodyIsHidden | crates/store/src/error.rs:245-256 | two messages that differ only in a URL's body sanitise to the same text, for any text before and after |
| Sanitizer.UrlResidue | crates/store/src/error.rs:239-256 | a URL behind any scheme-free text leaves that text, one marker and closing brackets, at most as many as there are earlier passes, and none exactly when its body contains no earlier scheme: no character of the body survives, nested URLs included |
| Sanitizer.TokenIsCutAtFirstUrl | crates/store/src/error.rs:239-256 | every token that contains a scheme, however many and however nested, is cut at its first one: only the text before it, a marker and at most two brackets are left |
| Sanitizer.UrlIsOneMarkerExactlyWhen | crates/store/src/error.rs:239-256 | a URL behind any scheme-free text is replaced as a whole by one marker if and only if its body contains no scheme of an earlier pass |
| Sanitizer.UrlInContext | crates/store/src/error.rs:239-256 | for a URL anywhere in running text, with scheme-free text glued to its front or not: what is left of its token is that text, one marker and at most two closing brackets, exactly one marker if and only if its body contains no scheme of an earlier pass, and the text around it is sanitised on its own |
| Sanitizer.LoneUrlIsOneMarker | crates/store/src/error.rs:239-256 | in particular a lone URL becomes exactly one marker under that condition and no other |
| Sanitizer.NestedUrlLeavesText | crates/store/src/error.rs:239-256 | a concrete nested URL whose output is the marker followed by a stray bracket |
| ConfigTree.DeepMergeInPlace | crates/core/src/config/merge.rs:9-25 | the remove-and-insert loop, in any order of the overlay's keys, computes the recursive merge |
| ConfigTree.MergeView | crates/core/src/config/merge.rs:5-8 | a lookup in the merge is the overlay's answer, nothing where the overlay blocks the path, and the base's answer elsewhere |
| ConfigTree.MergeIdempotent | crates/core/src/config/merge.rs:9-25 | merging a tree with itself changes nothing |
| ConfigTree.MergeIdentity | crates/core/src/config/merge.rs:9-25 | the empty table is a left identity for every tree and a right identity exactly for tables |
| ConfigTree.MergeAssociativeExactlyWhen | crates/core/src/config/merge.rs:9-25 | the two groupings of three layers agree if and only if nothing of the first layer resurfaces below a table that the third puts back where the second had a plain value |
| ConfigTree.MergeAssociative | crates/core/src/config/merge.rs:9-25 | in particular they agree when no path has tables in the outer layers and a plain value in the middle one |
| ConfigTree.MergeNotAssociative | crates/core/src/config/merge.rs:9-25 | three concrete layers for which they do not |
| ConfigTree.ViewsDetermineTree | crates/core/src/config/merge.rs:9-25 | two trees in which every path finds the same are equal |
| EnvOverrides.SetNestedInPlace | crates/core/src/config/mod.rs:291-307 | descending with creation of missing tables computes `SetNested` |
| EnvOverrides.SetNestedView | crates/core/src/config/mod.rs:291-307 | what a write does to every lookup: nothing when the path is empty or blocked, otherwise the value at the path, tables above it, the rest unchanged |
| EnvOverrides.BlockedWriteChangesNothing | crates/core/src/config/mod.rs:295-306 | a blocked write leaves the whole tree unchanged, with no half-created tables |
| EnvOverrides.WriteReadsBack | crates/core/src/config/mod.rs:291-307 | an unblocked write reads back and leaves incomparable paths alone |
| EnvOverrides.LastWriteWins | crates/core/src/config/mod.rs:291-307 | writing one path twice keeps the last value |
| EnvOverrides.WritesCommute | crates/core/src/config/mod.rs:291-307 | writes to incomparable paths commute |
| EnvOverrides.WritesCommuteExactlyWhen | crates/core/src/config/mod.rs:291-307 | for any two non-empty paths and values the order of two writes does not show if and only if the paths are incomparable, the two agree where they overlap, or a plain value blocks the shorter path |
| EnvOverrides.WriteIsMergeExactlyWhen | crates/core/src/config/mod.rs:291-307 | writing a non-table value is merging the one-path tree if and only if no plain value blocks the path |
| EnvOverrides.ApplyEnvOverrides | crates/core/src/config/mod.rs:226-248 | the loop over the variables, with its `continue` for flat ones, computes `ApplyAll` |
| EnvOverrides.OverridesAreOrderIndependent | crates/core/src/config/mod.rs:226-248 | if every two variables have incomparable paths or agree where their paths overlap, every permutation of the list gives the same tree |
| EnvOverrides.OtherVariablesAreIgnored | crates/core/src/config/mod.rs:231-236 | dropping any variables that do not start with `FORGECLAW_` or have no two adjacent underscores behind it changes nothing |
| EnvOverrides.FlatVariableChangesNothing | crates/core/src/config/mod.rs:231-236 | a variable without the prefix `FORGECLAW_`, or without two adjacent underscores behind it, such as a secret, leaves the tree as it was |
| EnvOverrides.SectionsStaySections | crates/core/src/config/mod.rs:226-248 | the root stays a table and no override turns a top-level section into a plain value |
| EnvOverrides.SplitRoundTrip | crates/core/src/config/mod.rs:234-237 | rejoining the split segments gives the text back, and there are two or more exactly when the separator occurs |
| EnvOverrides.JoinRoundTripExactlyWhen | crates/core/src/config/mod.rs:234-237 | splitting gives joined segments back if and only if none contains the separator and none but the last ends in an underscore |
| EnvOverrides.SpelledPath | crates/core/src/config/mod.rs:231-244 | every list of two or more separable segments has a variable that spells it: its segments joined by the separator |
| EnvOverrides.SectionVariableWrites | crates/core/src/config/mod.rs:226-275 | a variable for a section other than `providers`, `groups`, `channels` and `budget_pools` writes its parsed value at its lower-cased segments, however many |
| EnvOverrides.FieldVariableWrites | crates/core/src/config/mod.rs:85-87 | `FORGECLAW_`, a section, `__` and a field, as in the documented example, write the parsed value at the lower-cased section and field |
| EnvOverrides.MapVariableWrites | crates/core/src/config/mod.rs:226-275 | for the four map sections the same holds except that the second segment keeps its casing |
| EnvOverrides.MapKeyKeepsCasing | crates/core/src/config/mod.rs:250-256 | a variable for a field of a provider, group, channel or budget pool writes at the lower-cased section, the name with its casing, and the lower-cased field |
| EnvOverrides.SamePathExactlyWhen | crates/core/src/config/mod.rs:257-273 | two spellings address the same path exactly when their segments agree up to case, map keys exactly |
| Layering.LoadLayered | crates/core/src/config/mod.rs:94-114 | the tree built from the three layers answers every lookup as the stack of layers does; away from the variables it finds what the project file has, nothing where the project file blocks the path, what the user file has elsewhere, what the one existing file has, and without files only the root |
| Layering.LayeredResolution | crates/core/src/config/mod.rs:94-114 | the same for the merged and overridden tree as a value |
| Layering.LastEffectiveVariableWins | crates/core/src/config/mod.rs:80-87 | an unblocked variable that no later one touches decides every lookup at or below its path and makes a table of everything above it |
| Layering.ResolutionInClosedForm | crates/core/src/config/mod.rs:80-114 | every lookup in the layered tree is decided by the last unblocked variable with a comparable path, and where there is none by the files |
| Layering.FilesDecideTheRest | crates/core/src/config/mod.rs:80-87 | the same law of the files for the stack of layers, for each combination of existing files |
| Tasks.EncodingsAreExact | crates/store/src/types/task.rs:96-178 | parsing accepts exactly the three texts of a kind and the four of a status, each for its own value, and inverts the encoding |
| Tasks.StoredStandsForRow | crates/store/src/ops/tasks.rs:98-121 | decoding a row loses nothing when kind and status are known texts, and otherwise reports schema drift in the kind's column or, if the kind is known, in the status's |
| Tasks.DueTasksAreTheFirstDueRows | crates/store/src/ops/tasks.rs:45-66 | on a table whose columns parse the due query returns the first due rows, decoded, without schema drift |
| Tasks.DueTasksAreActiveAndOrdered | crates/store/src/ops/tasks.rs:39-66 | every task in the answer is stored, active and has a next run at or before `now`; tasks are ordered by next run, then id; there are no more than the limit and 10,000 |
| Tasks.NoEarlierTaskIsLeftOut | crates/store/src/ops/tasks.rs:39-66 | every stored active task with a next run at or before `now` is in the answer, unless the answer is full of tasks that all run before it |
| Tasks.DueDriftsExactlyWhen | crates/store/src/ops/tasks.rs:45-66 | on any table the due query reports schema drift if and only if a row of the page has an unknown kind; an unknown status is never reported |
| Tasks.DueIgnoresTableOrder | crates/store/src/ops/tasks.rs:43-44 | the answer depends on the set of rows only, not on their order in the table |
| Tasks.CreatedTaskReadsBack | crates/store/src/ops/tasks.rs:24-35 | a created task reads back with every field as given |
| Tasks.RecordedRunReadsBack | crates/store/src/ops/tasks.rs:88-94 | after a recorded run any row reads back with the result's status, next run, text and time and everything else unchanged, even if its status was unknown before; an unknown kind remains an error |
| Tasks.TaskTable.CreateTask | crates/store/src/ops/tasks.rs:18-38 | appends the initial row, or rejects a taken id and leaves the table alone |
| Tasks.TaskTable.UpdateTaskAfterRun | crates/store/src/ops/tasks.rs:73-96 | sets exactly the result columns of exactly the named row, or answers not-found and changes nothing |
| TaskRuns.DrainRunsInOrder | crates/store/src/ops/tasks.rs:45-96 | however due questions are cut into pages, the initially due tasks run in `(next_run, id)` order, as many as the limits allow |
| TaskRuns.DueTasksDrain | crates/store/src/ops/tasks.rs:45-96 | with enough positive limits each initially due task runs exactly once in order, its row (active, next run at or before `now`) carries its result, no other row changes and nothing is due any more |
| TaskRuns.RowsComeFromOneResult | crates/store/src/ops/tasks.rs:81-95 | under any interleaving of creates, loads and updates a row is its creation plus one single result, the last one written |
| TaskRuns.StaleRowWritesTheSame | crates/store/src/ops/tasks.rs:81-94 | writing back the loaded row as a whole, however stale, would give the same row |
| TaskRuns.DueQueryNeverDrifts | crates/store/src/ops/tasks.rs:98-121 | in every reachable state the due query fails exactly on negative limits, returns nothing for the limit 0, and never reports schema drift |

## Left out

- SeaORM, sqlx and the databases: only their step semantics are kept (reads of committed rows, fresh numbers, exclusive transaction locks, a unique id, rollback).
- A sequence that hands out numbers out of order (a cached PostgreSQL sequence) is outside the model: every drawn number is above all committed and in-flight ones.
- Overflow of the 64-bit `seq` and of timestamps; limits are modelled with their 64-bit range.
- MessageStore.Database.AwaitTurn: does not model starvation by endless interference, because the code relies on the database's lock queue; finitely many arbitrary steps of others may happen during the wait.
- A commit whose outcome is unknown to the caller: a commit either becomes visible or the transaction rolls back.
- TOML and JSON parsing, `parse_env_value`, Unicode lower-casing, file reads and deserialisation: parameters or given values.
- Scalars are held by their text, since no modelled function looks inside one; the key order of a table is not modelled.
- EnvOverrides.SetNestedInPlace: takes the child out and puts it back instead of writing through a mutable reference, because the tree is a value here.
- UUID generation, clocks and tracing: ids and times are inputs.
- `categorize`, `classify`, `validate`, id newtypes, URL scheme checks, group, state, session and event operations: single-branch or single-fold code.
- `EventBus` and `CommandBus`: wrappers over channels whose meaning would have to be assumed.
