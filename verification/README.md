# A verified model of PilotStd's protocols, stores, rewriters and gates

PilotStd's container and its maintenance scripts hold a number of small programs whose correctness is more than a
reading of their bodies: a lock that several workers compete for, tables and dictionaries that throw data away while
they run, text rewriters and parsers, and state that must survive restarts, edits and comparison. This project models
them in Dafny, proves the loops and classes against specifications, and proves what those specifications promise, for
all inputs and all runs. Where a promise does not hold in general, the project gives an input that breaks it and, where
it can be stated as a check a caller could make, the exact condition under which it holds.

`dafny verify dfyconfig.toml` checks everything. One module per file:

| modules | what they model |
|---|---|
| `SchedulerLock`, `SchedulerLease` | the `scheduler_lock` row: one worker's statements and heartbeat timing; any number of workers interleaving statement by statement |
| `RateLimiter`, `LoginGuard`, `SessionStore` | stores that forget: request window, failure table, audit throttle, alert, sessions; each against a history that forgets nothing |
| `CommentStripper`, `CommentTokens`, `MarkupTokens` | the comment blanker and the line numbers read off its output; source text and template text as printed lists, and what the blanker makes of each |
| `TableHeaders`, `HeaderTexts`, `SchemaRewriter`, `SchemaStatements`, `SchemaRuns` | finding, replacing and generating CREATE TABLE statements; which texts are found; running the rewriter again |
| `ColumnSplitter`, `ColumnCleaner`, `ColumnForms` | the SQL column splitter and cleaner; what the cleaner makes of calls, aliases and expressions |
| `Characters`, `Letters` | character classes and cuts as the scripts use them; words and white space in a text, letter by letter |
| `DiffReader`, `MarkerTexts`, `DiffPrinter`, `DiffExactness` | the reader of `git diff` output; which texts are debt markers; a printer of unified diffs and what the reader reports on its output; when that is what is there |
| `RelativeImports`, `ImportTargets` | two resolvers, a checker and a fixer for relative imports; the files an import needs |
| `LocaleKeys` | leaf paths of locale files and the alignment gate |
| `SettingsMigration` | the restartable settings migration |
| `AnnouncementRecords`, `RecordPages` | record editing and approval, and paging through records |
| `CacheDiff` | the cache check against a baseline report |
| `Basics` | `Option`, and a log that grows at its end |

Histories are ghost state of the classes that keep them. Times are integers: microseconds in the scheduler, seconds
elsewhere. Each SQL statement is one atomic step. In the stores (`RateLimiter`, `LoginGuard`, `SessionStore`) clock
readings never decrease in the order in which a lock or the table serialises them. `SchedulerLease` does not assume
this: there a clock read is a step of its own, and the write that carries it may land at any later time.

## Where the code and its documentation part

The model follows the code. These are the places where a comment, a docstring or an intended bound says more than
the code does; each is a lemma.

- Two missed heartbeats of 30 seconds do not keep the row within the 90-second timeout: stamps drop the fraction of a
  second that the age comparison keeps (`StaleAfterMissedWrites`, `TwoMissedWritesCanGoStale`).
- Reading and taking over a stale row are two statements, and two workers can both do it
  (`InterleavedTakeOversCollide`). A heartbeat's clock read and its UPDATE are two steps, and a beat that a stopped
  worker left behind can set the next worker's row back far enough to be taken over (`LateBeatCollides`), unless
  statements are answered in time (`PunctualWorkersExclude`). A heartbeat that does not parse blocks the lock for good
  (`UnreadableHeartbeatBlocksForever`).
- The failure alert is meant to be sent once. When it is sent, and when exactly once, is `AlertFiresIff` and
  `AlertOnceIff`; an IP that fails steadily every 60 to 74 seconds raises it at every failure from the fifth on
  (`SteadyDripAlertsEveryTime`).
- `strip_comments` promises to keep strings; its HTML pass runs first and blanks `<!-- -->` inside them
  (`HtmlCommentInStringIsBlanked`); `TokenIsKeptIff` says exactly which tokens it keeps. Its promise to keep line
  numbers holds for newlines, but `splitlines` also breaks at characters that it blanks (`LineNumbersAgreeIff`).
- `_clean_column` means to drop Python's own names, but compares upper-cased text with `self`, `None` and the like
  (`PythonNamesAreKept`), and can let a newline through that stands before a closing quote (`NewlineSurvives`,
  `CleaningIsIdempotentIff`).
- A generated statement is meant to be that of the production table. It has no primary key (`PrimaryKeyIsLost`), and a
  default that is an expression becomes a text (`DefaultIsQuotedIff`).
- A second run of the rewriter is not always idle; exactly when it is, is `SecondRunIsIdleIff`. A column default with
  an opening bracket too many, as that of `OpenColumn`, makes the next run delete what follows the statement
  (`NextRunLosesTheRest`); one that closes too early, as that of `OverclosedColumn`, makes every further run add the
  end of the statement once more (`EveryRunAddsTheTail`). Where another statement follows one with open brackets, the
  back-to-front splice of the two leaves a piece of it behind whenever it grows (`NestedStatementsSpliceIff`), and a
  second run may still have to change that (`NestedStatementsTakeTwoRuns`).
- The diff reader counts the remark about a missing newline as a line, takes an added line that starts with `++ ` for
  a file header, and does not know quoted paths. `ReaderAgreesLineByLineIff` has the exact condition for every diff,
  line by line, and `ReaderInvertsPrinterIff` for the reported list; `MissingNewlineIsMisreported` and
  `LookalikeIsMisreported` are printed diffs that are misreported. Its exclusion list never excludes anything
  (`ExclusionsAreIdle`).
- The migration marks itself done even when inserts failed (`FailuresShowIff`), and preferences changed after a run
  that died are overwritten (`EditsOfMigratedKeysAreLost`). A setting of user 0 with the marker's key ends it early
  (`RestartSafeIff`); this concerns tables whose reference to `users` is missing or not enforced, as otherwise no
  settings row belongs to user 0 (`RestartSafeForUsers`).
- `batch_approve` says that a transaction makes it atomic; it reads and writes in separate statements, and so does
  `update_record`. Interleaved, an approval can be undone, and a record without a name or a number approved; both with
  their exact conditions (`LateEditUndoesApproval`, `LateApprovalIsCompleteIff`).
- Pages are ordered by standard number alone, so the query does not say in which order it gives records that share
  one, and they may repeat on pages or be missed (`PagingIsExactIff`). This is about what the query guarantees; whether
  SQLite ever changes such an order between two runs is not part of this model.

## Model

| member | source | states |
|---|---|---|
| SchedulerLease.AtMostOneHolder | docker/scheduler.py:292-356 | mutual exclusion: in every reachable state of every run of any number of workers (clock reads, insert, read, takeover, beat, re-creation with pid 0, stop, crash) at most one worker holds the lock, if no row changed between a SELECT and its UPDATE, no beat that a gone worker left behind sets the row back by more than some time behind the holder's latest write, and no holder's last accepted beat is older than 90 s less that time; with the time zero, no such beat may set it back at all |
| SchedulerLease.RunKeepsInv | docker/scheduler.py:292-356 | every run keeps the invariant behind it: the row is no further than that time behind the latest accepted write of whoever holds the lock, although beats and the DELETE compare no pid |
| SchedulerLease.PunctualWorkersExclude | docker/scheduler.py:334-356 | of workers that keep time neither freshness nor the absence of late beats need be assumed: every statement, also one left behind, answered within a limit, passes begun within 30 s and a slack, never two failed passes in a row, with four limits and two slacks within 29 s; then with undisturbed takeovers every state is fresh, the holder's row is never stale, and exclusion holds |
| SchedulerLease.PunctualRunKeepsInv | docker/scheduler.py:334-356 | the invariant behind it, for any bound on late beats: only a bound below the limit need be assumed, and three limits, two slacks and the bound within 29 s suffice |
| SchedulerLease.LateBeatCollides | docker/scheduler.py:338-353 | a run, fresh and with undisturbed takeovers, in which a beat one second late makes two holders |
| SchedulerLease.TakeOverFindsNoHolder | docker/scheduler.py:313-323 | the one step that could break exclusion: a takeover of a row that is still the stale one it read finds no holder |
| SchedulerLease.AttemptRefinesAcquire | docker/scheduler.py:292-331 | the interleavable statements of an attempt, run back to back against any row or none, do what one uninterrupted acquire does: become holder with the own stamp in the row, or give up and leave it |
| SchedulerLease.PassRefinesBeat | docker/scheduler.py:338-353 | those of a heartbeat pass, run back to back with a row or without, leave the row that one uninterrupted beat leaves |
| SchedulerLease.StaleRowIsTakenOver | docker/scheduler.py:312-325 | a stale row is always taken over: this is the recovery after a crash, and it shows that freshness is needed, since a slow holder, or one that stops and waits for its jobs without beats, is joined by a second one |
| SchedulerLease.InterleavedTakeOversCollide | docker/scheduler.py:313-323 | a run, fresh in every state and within every limit, in which two workers read the same stale row and both take it over |
| SchedulerLease.UnreadableHeartbeatBlocksForever | docker/scheduler.py:316-330 | a left-over heartbeat that does not parse keeps every worker out for ever, in every run |
| SchedulerLock.LockTable.AcquireSchedulerLock | docker/scheduler.py:292-331 | one acquire without interference: its answer and the row it leaves, stamped with the clock read on entry |
| SchedulerLock.LockTable.HeartbeatLoop | docker/scheduler.py:334-356 | the loop leaves the row that the accepted writes determine, re-created with pid 0 where it was gone; refused writes leave it alone |
| SchedulerLock.LockTable.StopScheduler | docker/scheduler.py:586-595 | the DELETE removes the row, whoever wrote it; one that fails leaves it |
| SchedulerLock.AgeWhenNextWriteLands | docker/scheduler.py:334-356 | the exact age of the row when the next write lands after k refused ones: k + 1 intervals, all delays, and the fraction of a second that the stamp dropped |
| SchedulerLock.StaleAfterMissedWrites | docker/scheduler.py:26-27 | without delays the row goes stale exactly when k >= 3, or k = 2 and the last stamp dropped a fraction |
| SchedulerLock.TwoMissedWritesCanGoStale | docker/scheduler.py:26-27 | two missed writes and no delay are not safe: a concrete run |
| SchedulerLock.SteadyHeartbeatIsFresh | docker/scheduler.py:334-356 | one worker's row is never stale, at any instant, if it never misses two writes in a row and each takes less than a third of 29 s |
| RateLimiter.Limiter.CheckRateLimit | docker/auth_middleware.py:87-99 | every decision is that of a limiter that never forgets, only admitted requests are stored, and no list exceeds 1000 |
| RateLimiter.EveryWindowIsBounded | docker/auth_middleware.py:87-99 | in every run each IP has at most 1000 admitted requests in every window of 60 s, wherever it ends |
| RateLimiter.KeptAgrees | docker/auth_middleware.py:91-95 | the pruned list of an IP answers every later request as its whole history would |
| LoginGuard.Guard.Login | docker/auth.py:353-370 | one login call: blocked, failed (recorded, and perhaps alerted) or succeeded (record cleared), as it would be with nothing ever purged |
| LoginGuard.Guard.RecordLoginFailure | docker/users.py:299-307 | the insert counts once, and the purge changes no count that reaches back at most seven days |
| LoginGuard.Guard.ClearLoginFailures | docker/users.py:310-313 | all counts of this IP become zero, those of others stay |
| LoginGuard.Guard.CountRecentFailures | docker/users.py:316-323 | the count over the rows of the table |
| LoginGuard.RecordedFailuresAreBounded | docker/auth.py:353-370 | in every serial run the table never holds more than 100 failures of one IP in any 300 s |
| LoginGuard.FailuresBoundedBySuccesses | docker/auth.py:359-370 | failures that successes have erased are bounded by 100 for each success in the window and 100 more |
| LoginGuard.Guard.AuditLockoutOnce | docker/auth.py:244-252 | the throttle with its pruned map decides as one that forgets nothing |
| LoginGuard.AuditsAreSpaced | docker/auth.py:224-262 | any two audits of one IP are at least 300 s apart |
| LoginGuard.EveryBlockIsCovered | docker/auth.py:224-262 | every blocked attempt, the first one too, has an audit of its IP in the run, perhaps its own, less than 300 s old |
| LoginGuard.AlertFiresIff | docker/auth.py:280-284 | in every genuine run the n-th failure since the last success sends the alert exactly when n is at least 5, the fifth to last failure is less than 300 s old and the sixth to last is not |
| LoginGuard.AlertOnceIff | docker/auth.py:280-284 | over a stretch of failures of any length the alert is sent exactly once if and only if exactly one failure is such |
| LoginGuard.AlertExactlyOnce | docker/auth.py:277-307 | hence over a stretch shorter than 300 s from an empty record it is sent exactly once if there are five failures, and never otherwise |
| LoginGuard.SteadyDripAlertsEveryTime | docker/auth.py:277-284 | beyond 300 s it is not once: a failure every 60 to 74 s alerts every time from the fifth on |
| SessionStore.StoreRefinesIdeal | docker/session_store.py:28-104 | over all runs the store holds part of the ideal map, and lacks only sessions that had run out |
| SessionStore.AddedSessionIsFound | docker/session_store.py:28-56 | after a login the session is found, with what it was added with, until its time is up, whatever happens to other sessions |
| SessionStore.RefreshedSessionIsFound | docker/session_store.py:66-74 | a refresh sets the time of a stored session anew and nothing else |
| SessionStore.RemovedSessionIsGone | docker/session_store.py:58-64 | after a logout nothing is found until the token is added again |
| SessionStore.LookupIsIdeal | docker/session_store.py:46-56 | every lookup answers as the ideal map does, if no refresh came after a session ran out |
| SessionStore.CleanupsAreInvisible | docker/session_store.py:94-104 | runs that differ only in lookups and cleanups give the same answers to every later lookup |
| SessionStore.CleanupMattersOnlyBeforeRevival | docker/session_store.py:66-74 | the condition is exact: a cleanup before a refresh shows if and only if the refresh revives a session that has run out |
| SessionStore.NoSessionSurvivesPasswordChange | docker/users.py:260-281 | after a successful password change no session of that user is found until a later login, whatever else happens |
| SessionStore.OtherUsersKeepTheirSessions | docker/session_store.py:76-92 | lookups of all other users' sessions are unchanged |
| SessionStore.ChangePassword | docker/users.py:243-281 | removes the user's sessions exactly when the change succeeds and the user exists |
| SessionStore.Store.Get | docker/session_store.py:46-56 | the lookup that deletes what has run out |
| SessionStore.Store.RemoveByUser | docker/session_store.py:76-92 | collects and deletes the sessions of one user, and returns their number |
| SessionStore.Store.CleanupExpired | docker/session_store.py:94-104 | collects and deletes what has run out, and returns its number |
| CommentStripper.StripLoop | scripts/check_i18n_hardcoded.py:75-115 | the character loop computes the token specification |
| CommentStripper.TokensRendered | scripts/check_i18n_hardcoded.py:75-115 | token by token, comments come out blank and strings and other code verbatim |
| CommentTokens.PrintedIsRendered | scripts/check_i18n_hardcoded.py:75-115 | for every list of literals with escapes, line comments, block comments and other code, the loop turns the printed text into the same text with exactly its comments blank; literals may be cut off by a newline, templates may cross one, the last comment may be unclosed |
| CommentTokens.EveryTextIsPrinted | scripts/check_i18n_hardcoded.py:75-115 | and every text is the print of such a list |
| MarkupTokens.HtmlPrintedIsRendered | scripts/check_i18n_hardcoded.py:60-74 | for every list of template comments and single characters, the HTML pass blanks exactly the comments |
| MarkupTokens.EveryTextIsRendered | scripts/check_i18n_hardcoded.py:63-115 | the whole function on any text, by the two lists that it prints |
| MarkupTokens.SourceIsRendered | scripts/check_i18n_hardcoded.py:63-115 | source text without template comments comes out with exactly its comments blank |
| CommentStripper.TokensRenderedAlways | scripts/check_i18n_hardcoded.py:63-115 | how the whole function renders any text: it reads the tokens of the text with blank HTML comments, and blanks comments |
| CommentStripper.TokenIsKeptIff | scripts/check_i18n_hardcoded.py:63-115 | on any text such a token that is no comment, a string literal above all, is kept verbatim exactly when every character of it inside an HTML comment is a space or newline already |
| CommentStripper.TokensRenderedWithoutHtml | scripts/check_i18n_hardcoded.py:63-115 | on text without an HTML comment, strings and other code come out verbatim and comments blank |
| CommentStripper.OnlyBlanksInPlace | scripts/check_i18n_hardcoded.py:63-115 | the output has the input's length, every character is kept or a space, newlines stay in place |
| CommentStripper.StripCommentsIsIdempotent | scripts/check_i18n_hardcoded.py:63-115 | the whole function with its HTML pass is idempotent |
| CommentStripper.HtmlPassChangesOnlyComments | scripts/check_i18n_hardcoded.py:60-74 | the HTML pass changes a text exactly when it has an HTML comment |
| CommentStripper.HtmlCommentInStringIsBlanked | scripts/check_i18n_hardcoded.py:74 | a string literal that contains an HTML comment is not kept |
| CommentStripper.LineNumbersFallShort | scripts/check_i18n_hardcoded.py:144-153 | by how much line numbers on stripped text fall short of those on raw text, at every position |
| CommentStripper.LineNumbersAgreeIff | scripts/check_i18n_hardcoded.py:144-153 | they agree exactly when no comment holds a line break other than a newline |
| CommentStripper.LineSeparatorInCommentShiftsLines | scripts/check_i18n_hardcoded.py:144-153 | a concrete text with a line separator in a comment whose later line numbers are off by one |
| SchemaRewriter.FindCreateTableMatches | scripts/sync_test_schema.py:75-104 | the three scanning loops find the statements of the specification, in order |
| SchemaRewriter.EveryStatementIsFound | scripts/sync_test_schema.py:78-84 | every position where the header pattern matches is found |
| HeaderTexts.SearchIsExact | scripts/sync_test_schema.py:78-104 | the list that the search returns is determined without the pattern: a statement is in it exactly when `CREATE TABLE`, perhaps `IF NOT EXISTS`, a name and a bracket stand there, words in any case, white space of any length; and they come in order |
| HeaderTexts.StandingHeaderIsFound | scripts/sync_test_schema.py:78-84 | wherever such a header stands, whatever is before and behind it, its statement is reported with its name |
| HeaderTexts.FoundHeaderStands | scripts/sync_test_schema.py:78-84 | wherever a statement is reported, such a header stands there |
| TableHeaders.HeadersDoNotOverlap | scripts/sync_test_schema.py:78-81 | no header starts inside another one, so that searching on behind a header misses none |
| SchemaRewriter.ClosesAtFirstBalance | scripts/sync_test_schema.py:86-95 | the bracket loop stops at the first position where the depth is zero again, or at the end of the text |
| SchemaRewriter.FirstBalanceCloses | scripts/sync_test_schema.py:86-95 | a position with that property is where it stops |
| SchemaRewriter.FixFile | scripts/sync_test_schema.py:107-133 | the reversed loop is the back-to-front splice, and counts the rewritten statements |
| SchemaRewriter.SplicingIsSubstitution | scripts/sync_test_schema.py:119-133 | when no statement starts inside another, that splice is simultaneous substitution: due statements replaced, all other text verbatim |
| SchemaRewriter.SecondRunChangesNothing | scripts/sync_test_schema.py:107-133 | over a file without nested statements a second run makes no change, if the generated statements are read back whole and whatever starts inside them ends there and is not due |
| SchemaStatements.SoundSchemaIff | scripts/sync_test_schema.py:58-72 | generated statements are read back whole exactly when every table's body has matched brackets and no header in it |
| SchemaStatements.OneStatementIff | scripts/sync_test_schema.py:58-72 | the same for one statement |
| SchemaStatements.BodyIsBalanced | scripts/sync_test_schema.py:60-70 | matched brackets in every column definition are matched brackets in the body |
| SchemaStatements.GenerateCreateTable | scripts/sync_test_schema.py:58-72 | the loop over the columns builds the statement of the specification |
| SchemaStatements.DefaultIsQuotedIff | scripts/sync_test_schema.py:65-69 | a default is written as it is exactly when it starts with a quote or consists of digits and dots, with one digit at least; anything else is put in quotes |
| SchemaStatements.DefinitionKeepsIff | scripts/sync_test_schema.py:61-70 | two columns get the same definition exactly when their names, upper-cased types, written defaults and whether NOT NULL is due agree |
| SchemaStatements.PrimaryKeyIsLost | scripts/sync_test_schema.py:61-72 | the generated statement is the same whether or not its columns are keys, and a key column loses `NOT NULL` |
| SchemaStatements.UnclosedStatementTakesTheRest | scripts/sync_test_schema.py:86-100 | a written statement whose body opens more brackets than it closes reaches to the end of all text that leaves them open |
| SchemaStatements.NextRunLosesTheRest | scripts/sync_test_schema.py:107-133 | the second run over such a statement, generated from the schema, and the text behind it leaves the statement alone, in one change |
| SchemaStatements.OpenColumnIsUnclosed | scripts/sync_test_schema.py:61-70 | a concrete column, with the default `'('`, whose statement is such |
| SchemaStatements.NestedSplices | scripts/sync_test_schema.py:119-131 | for one due statement inside another, the result is that of the outer splice exactly when the inner text keeps its length, or shrinks with nothing behind |
| SchemaStatements.NestedStatementsAreFound | scripts/sync_test_schema.py:83-103 | files on which the search finds such spans: an unclosed statement and another one behind it |
| SchemaStatements.NestedStatementsSpliceIff | scripts/sync_test_schema.py:107-133 | on each such file with both due, the result is the first new statement alone exactly when the second one does not grow |
| SchemaRuns.SecondRunIsIdleIff | scripts/sync_test_schema.py:107-133 | the exact condition, for every schema: over all files without nested statements a second run makes no change if and only if every table's body has matched brackets and no statement that starts inside a generated one is due |
| SchemaRuns.SecondRunKeepsTextIff | scripts/sync_test_schema.py:107-133 | if no body has a header in it, matched brackets alone are the condition, and it decides whether the text stays the same |
| SchemaRuns.UnbalancedIff | scripts/sync_test_schema.py:86-95 | brackets that do not match either stay open or close too early, never both |
| SchemaRuns.NextRunRepeatsTheTail | scripts/sync_test_schema.py:86-133 | a statement whose brackets close too early is read back short, and the next run puts the whole statement in front of what it left over |
| SchemaRuns.EveryRunAddsTheTail | scripts/sync_test_schema.py:86-133 | so n further runs add n copies of that piece |
| SchemaRuns.OverclosedColumnCloses | scripts/sync_test_schema.py:61-70 | a concrete column, with the default `')'`, whose statement is such |
| SchemaRuns.NestedStatementsTakeTwoRuns | scripts/sync_test_schema.py:107-133 | nested files are rightly set apart: under a schema that meets the condition, one on which the second run still writes |
| ColumnSplitter.SplitCols | scripts/_sql_schema_parser.py:440-459 | the loop returns a split at the top-level commas |
| ColumnSplitter.SplitIsUnique | scripts/_sql_schema_parser.py:440-459 | a text has only one such split |
| ColumnSplitter.JoinGivesTextBack | scripts/_sql_schema_parser.py:440-459 | joining with commas gives the text back, or the text without one final top-level comma (and exactly when); no part has a top-level comma and all but the last have depth zero |
| ColumnCleaner.CleanIsIdentifier | scripts/_sql_schema_parser.py:390-437 | for text without newlines the result is empty or an identifier that is not reserved |
| ColumnCleaner.CleaningIsIdempotentIff | scripts/_sql_schema_parser.py:390-437 | cleaning twice is cleaning once, except exactly where the text that reaches the final check has a newline in front of its closing quotes and is accepted |
| ColumnCleaner.IdempotentWithoutQuotedNewline | scripts/_sql_schema_parser.py:390-437 | so for every input in which no newline stands directly before a quote |
| ColumnCleaner.CleanPassesFinalCheck | scripts/_sql_schema_parser.py:345-355 | through the mutual recursion with `_extract_func_arg`, whatever comes out is empty or passed the final check |
| ColumnForms.CallIsCleaned | scripts/_sql_schema_parser.py:345-355 | cleaning a call of a known function with one plain argument is cleaning the argument; an unknown function, a comma, `*`, no argument or a newline give nothing |
| ColumnForms.AliasIsDropped | scripts/_sql_schema_parser.py:339-342 | of a column with an alias it is the column that is cleaned, whatever the alias, if there are no braces |
| ColumnForms.AliasInCallIsLost | scripts/_sql_schema_parser.py:405-412 | the alias is looked for before the call, so that `CAST(x AS TEXT)` and its like give nothing |
| ColumnForms.PrefixIsDropped | scripts/_sql_schema_parser.py:419-421 | a table name, or a schema and a table name, in front of a column is dropped |
| ColumnForms.ComparisonIsCut | scripts/_sql_schema_parser.py:368-372 | of a comparison with any of the seven operators and any plain text the column is its left side |
| ColumnForms.ConditionIsCut | scripts/_sql_schema_parser.py:374-379 | likewise of `IS`, `IN`, `NOT`, `LIKE`, `GLOB` and `BETWEEN`, in any case, if nothing that the program looks for earlier stands in the text |
| ColumnForms.ArithmeticIsCut | scripts/_sql_schema_parser.py:381-385 | likewise of arithmetic |
| ColumnForms.ConcatenationIsCut | scripts/_sql_schema_parser.py:360-366 | of a concatenation that starts with a column it is that one |
| ColumnForms.FirstOfferIsTaken | scripts/_sql_schema_parser.py:360-366 | a concatenation comes to its first operand that offers something, a text that is neither empty nor a keyword, and to nothing if none does |
| ColumnForms.BlanksDoNotMatter | scripts/_sql_schema_parser.py:392 | white space around a column does not matter |
| ColumnForms.NoColumn | scripts/_sql_schema_parser.py:393-416 | literals, placeholders and keywords give nothing |
| ColumnCleaner.IdentifierIsFixed | scripts/_sql_schema_parser.py:390-437 | a name that is not reserved is kept |
| ColumnCleaner.ComputeSplitExpression | scripts/_sql_schema_parser.py:358-387 | the loops that reassign `col` compute the specification of `_split_expression` |
| ColumnCleaner.NewlineSurvives | scripts/_sql_schema_parser.py:424-437 | for every name, a text that comes out with a newline |
| ColumnCleaner.PythonNamesAreKept | scripts/_sql_schema_parser.py:412-432 | the check against Python's own names never succeeds |
| DiffReader.ExtractNewDebtMarkers | scripts/check_g_030_tech_debt.py:123-159 | the loop over the lines computes the reader of the specification |
| DiffReader.ExclusionsAreIdle | scripts/check_g_030_tech_debt.py:41-43 | a file in a source directory is never excluded |
| MarkerTexts.HasTechDebtIff | scripts/check_g_030_tech_debt.py:34-37 | a line matches the first pattern exactly when `#`, `TECH-DEBT` and a colon stand in it, in any case, with any or no white space between them |
| MarkerTexts.HasTodoDebtIff | scripts/check_g_030_tech_debt.py:34-37 | likewise `# TODO(debt):` and the second pattern |
| MarkerTexts.WatchedIff | scripts/check_g_030_tech_debt.py:39-43 | exactly the files below `pilotstd`, `docker` and `web/src` are watched, with slashes or backslashes |
| MarkerTexts.LineIsMarkedIff | scripts/check_g_030_tech_debt.py:148-155 | one report for each kind of marker that stands in an added line of a watched file, and no other |
| MarkerTexts.PlusNumberIs | scripts/check_g_030_tech_debt.py:142-145 | the start line is the number behind the first plus sign that has a digit behind it |
| DiffExactness.ReaderAgreesLineByLineIff | scripts/check_g_030_tech_debt.py:123-159 | for every printed diff, without exception, the reader reports at every line the markers that are there if and only if no marker line starts with `++` and every other added line with a marker, there or as reported, is met in its own file and with as many missing-newline remarks as look-alikes of file headers before it in the hunk |
| DiffExactness.ReaderInvertsPrinterIff | scripts/check_g_030_tech_debt.py:123-159 | the reported list is that of the markers on added lines of source files, each in its file and at its line, under the same condition, unless a look-alike leads from an unwatched file into a watched one |
| DiffExactness.ExactDiffIsRead | scripts/check_g_030_tech_debt.py:123-159 | on every diff that meets the condition the list is right, look-alikes or not |
| DiffExactness.MissingNewlineIsMisreported | scripts/check_g_030_tech_debt.py:156-157 | every printed diff that adds a marker behind a missing-newline remark to a source file is misreported |
| DiffExactness.LookalikeIsMisreported | scripts/check_g_030_tech_debt.py:133-139 | so is every one that adds a marker behind an added line that starts with `++ ` |
| DiffExactness.AMarkedLine | scripts/check_g_030_tech_debt.py:35-43 | a concrete path and text that are such a marker |
| DiffPrinter.HeaderIsRead | scripts/check_g_030_tech_debt.py:142-145 | the new start line is read back from every printed hunk header |
| DiffPrinter.PathIsRead | scripts/check_g_030_tech_debt.py:134-139 | the path is read back from every printed file header |
| DiffPrinter.DiffIsSeen | scripts/check_g_030_tech_debt.py:131-157 | what the reader reports on any printed diff, exact or not |
| DiffPrinter.LineIsSeen | scripts/check_g_030_tech_debt.py:133-157 | what each kind of printed line adds to the report and does to the reader's file and line |
| RelativeImports.ResolversAgree | scripts/check_relative_imports.py:44-52 | for every package, module and level of at least 1 the `rsplit` and the `split`/`join` resolvers give the name or the error that section 5.7 of the Python Language Reference defines |
| RelativeImports.ResolversAgreeIff | scripts/check_g_015_relative_imports.py:37-43 | over all levels they agree exactly when the level is at least 1 or the package is top-level |
| RelativeImports.RSplitIsAncestor | scripts/fix_relative_imports.py:23-27 | `rsplit` with a limit goes up that many packages or stops at the top |
| RelativeImports.SplitIsAncestor | scripts/check_g_015_relative_imports.py:37-43 | joining all but the last k parts goes up k packages |
| RelativeImports.GetPackageName | scripts/check_relative_imports.py:55-78 | the package name from the directories that have an `__init__.py` |
| RelativeImports.PackageNamesAgreeIff | scripts/check_g_015_relative_imports.py:31-34 | the two tools name the same package exactly when every directory on the way has an `__init__.py` |
| RelativeImports.CheckLevel | scripts/fix_relative_imports.py:86-119 | accepts exactly the imports that resolve |
| RelativeImports.CheckImport | scripts/check_relative_imports.py:158-217 | reports no fault for exactly those imports, hence agrees with `check_level`, and names the right fault otherwise |
| ImportTargets.ModuleImportResolvesIff | scripts/check_relative_imports.py:158-187 | `from ..a.b import n` is fine exactly when the dots stay within the root and the directory they stand for has `a/b.py` or `a/b/__init__.py` |
| ImportTargets.NameImportResolvesIff | scripts/check_relative_imports.py:193-217 | `from .. import n` is fine exactly when that directory has a package file and each name is a module or package beside it, or is defined in it |
| RelativeImports.CollectFixes | scripts/fix_relative_imports.py:137-206 | rewrites exactly the imports whose fixed form differs |
| RelativeImports.FixIsLeastLevel | scripts/fix_relative_imports.py:160-180 | a level that works is kept, a new level works and is the smallest from 1 to 5 that does, and a level left broken had no replacement |
| RelativeImports.SecondRunFixesNothing | scripts/fix_relative_imports.py:137-206 | a second run proposes no rewrite |
| LocaleKeys.LeafPathsDetermineSkeleton | scripts/check_i18n_key_count.py:54-67 | for files with dot-free keys, none of them empty at the top, equal leaf paths are equal key skeletons, both ways |
| LocaleKeys.DescentIsInjective | scripts/check_i18n_key_count.py:61-66 | with such keys a dotted path has only one reading |
| LocaleKeys.DottedKeyHidesStructure | scripts/check_i18n_key_count.py:61-66 | for every key with a dot between other characters there are two different structures with the same leaf paths |
| LocaleKeys.Aligned | scripts/check_i18n_key_count.py:81-117 | the union-and-missing loops find no gap exactly when all files agree |
| LocaleKeys.CheckLocales | scripts/check_i18n_key_count.py:70-156 | the gate passes exactly when no file has 60 or more top-level keys and all files have the same top-level keys and leaf paths; with plain keys, exactly when all skeletons coincide |
| SettingsMigration.Database.Migrate | docker/app.py:90-153 | one run, cut off after any number of statements or complete, and its count |
| SettingsMigration.CutOffRunsLeaveNoTrace | docker/app.py:98-153 | any number of runs that died anywhere, with any inserts failing and any changes to preferences in between, then one complete run: the table is that of one uninterrupted run over the changes alone |
| SettingsMigration.MarkerEndsMigration | docker/app.py:100-103 | after a complete run no later run changes anything |
| SettingsMigration.UnrelatedKeysAreKept | docker/app.py:123-149 | no run, cut off or not, touches a key that is not migrated |
| SettingsMigration.OpsAreDistinct | docker/app.py:124-143 | with one settings row per user no two inserts write the same row |
| SettingsMigration.EverySettingIsInserted | docker/app.py:123-143 | the inserts are exactly the settings of all rows that hold an object, each under its user and key |
| SettingsMigration.FailuresShowIff | docker/app.py:134-148 | an insert that fails is never made up for: the result is that of a run without failures exactly when every failed row already held its value |
| SettingsMigration.RestartSafeIff | docker/app.py:98-149 | dying and starting again is harmless on every table exactly when no insert but the last writes the marker's row |
| SettingsMigration.RestartSafeForUsers | docker/app.py:98-149 | so it is, on every table of settings whose rows belong to users other than 0 |
| SettingsMigration.EditsOfMigratedKeysAreLost | docker/app.py:134-143 | a complete run sets every migrated key to the old setting, whatever was stored there since |
| AnnouncementRecords.RecordTable.UpdateRecord | docker/api/announce_detail.py:511-544 | one edit: its answer, also where the table's unique key refuses it, and the whole new table |
| AnnouncementRecords.RecordTable.BatchApprove | docker/api/announce_detail.py:553-592 | one approval: its answer and the whole new table |
| AnnouncementRecords.EditStoresValues | docker/api/announce_detail.py:522-542 | an accepted edit stores every given value of an editable column, keeps all others, stamps the edit time alone and leaves all other rows |
| AnnouncementRecords.ApprovalStampsTimes | docker/api/announce_detail.py:583-590 | an approval stamps both times and keeps all columns |
| AnnouncementRecords.ApprovedRowsNeverChange | docker/api/announce_detail.py:511-592 | over any sequence of calls an approved row keeps its status, all its fields and its times |
| AnnouncementRecords.ApprovedStayComplete | docker/api/announce_detail.py:570-579 | over any sequence of calls every approved row has a number and a name, if so at the start |
| AnnouncementRecords.ApprovalIsAllOrNothing | docker/api/announce_detail.py:553-592 | either every chosen row that was not approved becomes approved, or nothing changes; and which |
| AnnouncementRecords.ApprovedCountIsTrue | docker/api/announce_detail.py:592 | the count in the answer is the number of rows that changed |
| AnnouncementRecords.StepIsAllowed | docker/api/announce_detail.py:511-592 | the status machine: what one call may do to one row |
| AnnouncementRecords.KeysStayUnique | pilotstd/core/db/_migrate_v70_announcement_record_language.py:17-52 | over any sequence of calls no two rows share source, pid, number and language, if none did at the start |
| AnnouncementRecords.LateEditUndoesApproval | docker/api/announce_detail.py:515-542 | an approval between the two statements of an edit is undone, exactly when the edit has something to write and the table's unique key accepts it |
| AnnouncementRecords.LateApprovalIsCompleteIff | docker/api/announce_detail.py:562-590 | a row edited between the two statements of an approval is approved all the same, and has a number and a name exactly when the edit empties neither or the unique key refused it |
| RecordPages.PagesMakeUpTheRows | docker/api/announce_detail.py:102-149 | under one order the pages up to the first without `hasMore` are exactly the rows |
| RecordPages.PagingIsExactIff | docker/api/announce_detail.py:130-140 | whatever order each query picks among those its ORDER BY allows, a client gets every record once; this is so exactly when no two records share a standard number |
| RecordPages.GetPage | docker/api/announce_detail.py:116-149 | the bounds, the slice and `hasMore` |
| CacheDiff.ComputeDiff | scripts/check_cache_consistency.py:60-87 | the two loops, with the loop over the four fields, compute the three lists |
| CacheDiff.PatchGivesCurrent | scripts/check_cache_consistency.py:60-87 | the baseline without the removed, with the modified and the added entries is the current table on the four fields |
| CacheDiff.NothingReportedIff | scripts/check_cache_consistency.py:60-87 | all three lists are empty exactly when the two tables have the same keys and the same four fields |
| CacheDiff.VerdictIff | scripts/check_cache_consistency.py:134-161 | against any report the check fails exactly when the tables differ or the report's total or site counts are not those of its own records |
| CacheDiff.LoadRows | scripts/check_cache_consistency.py:139-152 | the loop that counts sites and keys the rows |

## Left out

- FastAPI routing, cookies, JWT, password hashing, APScheduler jobs, threads, SQLite itself, AST walking, git calls, printing and log lines.
- Timestamps written beside migrated preferences and heartbeat rows of other tables, and the creation of the lock table.
- Real-valued clock readings and ISO text: integers stand for them; the truncation of heartbeat stamps to whole seconds is modelled.
- SchedulerLease.AtMostOneHolder: its three conditions are hypotheses for workers of any timing, and `StaleRowIsTakenOver`, `InterleavedTakeOversCollide` and `LateBeatCollides` show that exclusion fails without each of them; for workers that keep time `PunctualWorkersExclude` proves two of the three. That only a started worker reaches the DELETE is built into the steps, because shutting down a scheduler that never started raises first.
- SchedulerLease.PunctualWorkersExclude: the database retries a busy statement for longer than the limits it needs; that statements are answered in time is assumed, and so are undisturbed takeovers, which keeping time does not give (`InterleavedTakeOversCollide`).
- SchedulerLease.PassRefinesBeat: one clock read stands for the two that fill `started_at` and `heartbeat_at` of a re-created row.
- LoginGuard.RecordedFailuresAreBounded: concurrent `login` calls, which may each pass the check before any of them records; runs are serial, as the count and the insert are separate statements.
- SessionStore.LookupIsIdeal: does not cover runs with a refresh after expiry, where the answer depends on whether a cleanup came first (`CleanupMattersOnlyBeforeRevival`); dictionaries handed out by `get` are values here, so that changes to a returned dictionary are not modelled.
- CommentStripper: the CJK search, the snippet text and the file filters of `find_hardcoded`.
- Characters: word characters, digits and letter case are those of ASCII; white space is that of Python's `str.strip` and `\s`.
- ColumnCleaner: the keyword and function tables are parameters; the extraction of SQL strings from Python files is not modelled.
- SchemaRewriter.FixFile: the log lines, and the search for files; the reference schema is a parameter.
- SchemaRuns.SecondRunIsIdleIff: files in which a statement starts inside another one; of these only the family of `NestedStatementsTakeTwoRuns` is treated.
- SchemaStatements.OneStatementIff: the type text is upper-cased with ASCII rules.
- DiffExactness.ReaderInvertsPrinterIff: where a look-alike leads from an unwatched file into a watched one, a marker reported for nothing can make up for a missing one in the list, so that only `ReaderAgreesLineByLineIff` and `ExactDiffIsRead` are stated there; plain paths must not end in white space; combined diffs and paths printed without the `b/` prefix are not printed.
- RelativeImports.CollectFixes: works on import nodes; the rewriting of source lines, imports over several lines and aliases are not modelled, nor is the skipping of imports inside `try`. The file system is a set of paths and a map of defined names.
- LocaleKeys: warning texts, the summary table and the warning threshold.
- SettingsMigration.Database.Migrate: exceptions from the two SELECT statements and from the marker insert, which end the run with -1 and, but for the latter, change nothing; a run that dies stands for all of them.
- AnnouncementRecords: `updated_at` and `approved_at` are opaque texts; values of other JSON types than text, and the parsing, detail and source-resolution endpoints.
- RecordPages: the filter by announcement number and source, and the refusal of ambiguous sources.
- CacheDiff.VerdictIff: finding and loading the report; a NULL site, which the production table forbids, is a key of the counts here, whereas no key of a JSON report could equal it.
- `_prune_old_backups`, version and ratchet gates, and the remaining endpoints would add only easy members.
