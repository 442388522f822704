# A verified model of mypr-mcp

mypr-mcp manages workspaces: it edits files for language servers, keeps configuration in two layers, serves
browser observations, snapshots and diagnostics in pages, and reports errors across process boundaries. This
project models the algorithms in it whose correctness does not show from reading one body, and proves what they
keep over all inputs and all runs.

- `WorkspaceEdit`, `EditPlanner`, `TextEdits`, `Positions`: the compiler that shortens a WorkspaceEdit by
  overwriting operations it has already emitted, the two replays that decide whether a plan is still current, and
  the application of text edits and positions underneath (LSP 3.17).
- `DocumentMirror`, `LanguageServer`, `OperationLock`, `AppliedLsp`: the open-document mirror under uncertain
  writes, admission and replacement of servers, and the reports of applied definitions.
- `AstRewrite`, `Newlines`, `TextLines`, `Utf8`, `CharacterCodes`: the bounded rewriter, its newline cache, and
  UTF-8 (RFC 3629).
- `ConfigLens`: layered definitions with tombstones, read and saved.
- `ObservationEvents`, `ObservationBuffer`, `ObservationPages`, `ObservationBudget`, `SnapshotStore`,
  `BrowserSnapshots`, `SnapshotPager`, `SnapshotSearch`, `DiagnosticPages`, `JsonText`, `JsonValues`: bounded stores,
  cursors and pagers, and the bytes of what they send.
- `ErrorBounds`: the hard byte bound on error descriptions.
- `Outcomes`, `OrderedKeys`: results and insertion-ordered dictionaries, shared by the others.

Each stateful object is a class whose methods are proved equal to a specification function on its state; the main
results are lemmas about those functions. `dafny verify dfyconfig.toml` checks everything.

Where the code does not do what its names or documentation suggest, the model follows the code and states exactly
when the property holds: a refused reservation can release somebody else's (`RefusalRestoresExactly`), saving mail
accounts without a workspace deletes an unchanged account (`GlobalAccountsGetAfterPutExactly`), and copied error
details escape their budgets at a list with elements on the deepest level (`CopyIsPaidFor`, `DeepListIsPaidExactly`),
so that a list under three mappings gives a copy that no budget bounds (`DeepListEscapes`). The mark of a truncated
error tells of details cut for want of bytes, but not for want of nodes (`DraftSays`, `NodesRunOutUnmarked`).

A read of browser observations can fail its reader in two ways. It makes no progress exactly when the first wanted
event is cut to one or two bytes more than the page has left (`EmptyExactlyIfStuck`, `StuckIsTheMargin`), and then on
every retry (`StuckUntilEvicted`, `MarginStopsReader`). It is refused exactly when everything wanted was selected and
the finished page is larger than the one that was measured (`RefusedExactly`, `RefusedWholeExactly`,
`FullPageIsRefused`).

The recording of applied definitions also accepts inputs that would break its agreement with the kernel
(`ReportKeepsExactly`, `ResetKeepsExactly`). No caller produces them: a generation is reset only when a kernel is
started under a freshly made one (src/mypr_mcp/runtime.py:728 and 3300), late replies and reports over the socket are
refused without a number (src/mypr_mcp/config_runtime.py:151-166, src/mypr_mcp/runtime.py:451-463), and a kernel
answers every reload with its number (src/mypr_mcp/code_tools.py:3124-3151).

## Model

| member | source | states |
|---|---|---|
| `WorkspaceEdit.CompileRefinesInterpret` | `src/mypr_mcp/code_tools.py:2265-2392` | For every disk and every WorkspaceEdit: the compiler accepts exactly when the one-change-at-a-time meaning is defined and the request admits every change; the shortened plan then passes every staleness check on that disk and leaves exactly the files of the plain meaning. |
| `WorkspaceEdit.CoalesceKeepsReplay` | `src/mypr_mcp/code_tools.py:2301-2326` | A text edit to a path that is present in the virtual files always finds an operation to coalesce into, and overwriting the contents of that operation changes the replay at that path only. |
| `WorkspaceEdit.Replay1Commutes` | `src/mypr_mcp/code_tools.py:2838-2858` | The key commutation: an operation that does not mention a path commutes with an assignment to that path. |
| `WorkspaceEdit.ReplayLoadsMentionedPaths` | `src/mypr_mcp/code_tools.py:2838-2858` | The replay reads exactly the paths its operations mention, rename sources included. |
| `WorkspaceEdit.Compile1Accepts` | `src/mypr_mcp/code_tools.py:2265-2388` | One change is accepted by the compiler exactly when its plain meaning is defined on the virtual disk and the preconditions and document versions admit it. |
| `WorkspaceEdit.EditFailsExactly` | `src/mypr_mcp/code_tools.py:2283-2312` | Which error a text edit gives, each exactly under its own condition on the disk as the plan has left it: unreadable, changed since the request, missing, a negative version, a version that is not that of the open document, or edits that cannot be applied. |
| `WorkspaceEdit.ChangeFailsExactly` | `src/mypr_mcp/code_tools.py:2331-2386` | Any other admitted change fails with the error of its plain meaning; one that is not admitted fails because a document changed wherever its plain meaning is defined. |
| `WorkspaceEdit.Compile1IsFaithful` | `src/mypr_mcp/code_tools.py:2265-2388` | Each accepted change keeps plan, virtual files and plain meaning in agreement. |
| `WorkspaceEdit.CompiledUpdatesComeFirst` | `src/mypr_mcp/code_tools.py:2301-2326` | No operation before an update mentions its path, so its old contents and its expected digest are those of the bytes on disk. |
| `WorkspaceEdit.ReplayAcceptsExactly` | `src/mypr_mcp/code_tools.py:2838-2858` | A plan that passes the staleness check on one disk passes on another exactly when the two agree on every path the plan touches, absence included; the resulting files are then equal. |
| `WorkspaceEdit.CompileReadsOnlyItsFiles` | `src/mypr_mcp/code_tools.py:2265-2300` | Compilation depends on the disk only through the paths it records. |
| `WorkspaceEdit.AcceptedPlanMeansTheEdit` | `src/mypr_mcp/code_tools.py:2825-2868` | Whenever a compiled plan is accepted, on whatever disk it finds, the files it leaves are the plain meaning of the original WorkspaceEdit on that disk. |
| `WorkspaceEdit.TransactMatchesReplay` | `src/mypr_mcp/filesystem.py:636-691` | The replay inside the transaction, over the states of all paths read up front, accepts and computes the same as the lazy replay. |
| `WorkspaceEdit.CommitMatchesReplay` | `src/mypr_mcp/filesystem.py:603-691` | So it does when the states are those of every locked path, the paths with a requested revision included. |
| `WorkspaceEdit.PlanTouchesItsFiles` | `src/mypr_mcp/filesystem.py:578-584` | The operations of a compiled plan touch exactly the paths the compiler recorded. |
| `WorkspaceEdit.CommitMeansTheEdit` | `src/mypr_mcp/filesystem.py:540-735` | The transaction accepts a compiled plan exactly on the disks that still have every requested revision, also of paths outside the plan, and that agree with the planning-time disk on every path the plan touches; committing only the contents that changed then leaves the plain meaning of the WorkspaceEdit. |
| `EditPlanner.Planner.LoadState` | `src/mypr_mcp/code_tools.py:2283-2289` | Loading a path into the virtual files, with the precondition check, as the compiler specification does. |
| `EditPlanner.Planner.Coalesce` | `src/mypr_mcp/code_tools.py:2314-2323` | The backwards loop overwrites, in place, exactly the operation the specification names, or none. |
| `EditPlanner.Planner.Update` | `src/mypr_mcp/code_tools.py:2301-2326` | A text edit on the object state gives exactly the specified next plan or error. |
| `EditPlanner.Planner.ApplyRename` | `src/mypr_mcp/code_tools.py:2355-2379` | A rename on the object state gives exactly the specified next plan or error. |
| `EditPlanner.Planner.Apply` | `src/mypr_mcp/code_tools.py:2331-2386` | Any change on the object state gives exactly the specified next plan or error. |
| `EditPlanner.Planner.Run` | `src/mypr_mcp/code_tools.py:2328-2392` | A whole WorkspaceEdit compiles to the specified plan, fails with the first error, or is refused as empty. |
| `EditPlanner.ReplayOne` | `src/mypr_mcp/code_tools.py:2839-2858` | Reading missing paths, checking and performing one operation is one step of the specified replay. |
| `EditPlanner.CheckPreconditions` | `src/mypr_mcp/code_tools.py:2513-2519` | True exactly when every path with a requested revision still has it. |
| `EditPlanner.CheckPlan` | `src/mypr_mcp/code_tools.py:2836-2858` | The whole check before writing: StaleDocument when a requested revision is gone, otherwise the result of the replay, errors included. |
| `TextEdits.SplicesAreSimultaneous` | `src/mypr_mcp/lsp_edits.py:118-130` | For every array of edits that do not clash, in any order, sorting and splicing from the back gives the simultaneous replacement defined offset by offset: insertions in array order, then the replacement, then the kept text. |
| `TextEdits.ApartIsNoClash` | `src/mypr_mcp/lsp_edits.py:123-127` | On sorted edits the neighbour check finds a clash exactly when two edits share a code point or one inserts strictly inside another. |
| `TextEdits.SortKeepsMeaning` | `src/mypr_mcp/lsp_edits.py:118-122` | The sort keeps the array order of insertions at one offset and what replaces each range. |
| `TextEdits.SortKeepsClashes` | `src/mypr_mcp/lsp_edits.py:118-122` | Sorting neither hides nor creates a clash. |
| `TextEdits.BackToFrontIsForward` | `src/mypr_mcp/lsp_edits.py:128-130` | Splicing the last range first never moves a range still to come. |
| `TextEdits.ForwardIsSimultaneous` | `src/mypr_mcp/lsp_edits.py:118-130` | One forward pass over sorted, separate ranges is the simultaneous replacement. |
| `TextEdits.CheckApart` | `src/mypr_mcp/lsp_edits.py:123-127` | The descending loop over neighbours decides whether the ranges lie one behind the other. |
| `TextEdits.SpliceAll` | `src/mypr_mcp/lsp_edits.py:128-130` | The descending splice loop computes the back-to-front result. |
| `TextEdits.ApplyTextEdits` | `src/mypr_mcp/lsp_edits.py:101-130` | The whole operation equals the order-free definition: the first conversion error, Overlapping exactly when two edits clash, or the simultaneous replacement. |
| `TextEdits.AppliedExactly` | `src/mypr_mcp/lsp_edits.py:101-130` | For every edit array: the result replaces at once exactly the places that the positions address by exactly the texts that were sent; it is refused as overlapping exactly if those places clash, and otherwise fails with the first fault of the first faulty edit. |
| `TextEdits.ConvertsExactly` | `src/mypr_mcp/lsp_edits.py:105-116` | A converted edit starts and ends at the offsets of its two positions and carries its text; each error has its own reason: malformed, a position that is refused, a reversed range, a replacement with a null character. |
| `TextEdits.OneEditReplaces` | `src/mypr_mcp/lsp_edits.py:101-130` | One edit sent from two columns of a text replaces what is between these places, in any encoding, and nothing else. |
| `Positions.Adjoint` | `src/mypr_mcp/code_tools.py:193-214` | For UTF-8, UTF-16 and UTF-32: the column of an offset is at most c exactly when the offset is at most the units before column c. |
| `Positions.ColumnRoundTrip` | `src/mypr_mcp/code_tools.py:170-214` | A column converted to code units and back is the same column. |
| `Positions.OrderIsKept` | `src/mypr_mcp/code_tools.py:170-190` | Columns and their offsets are ordered alike. |
| `Positions.WidthCountsUnits` | `src/mypr_mcp/code_tools.py:170-190` | A character counts as many units as UTF-8, UTF-16 or UTF-32 give it, surrogate pairs included. |
| `Positions.ToWireExactly` | `src/mypr_mcp/code_tools.py:170-190` | Exactly the columns of the text can be sent, the one behind the end of each line included; anything else has its error. |
| `Positions.ToUserExactly` | `src/mypr_mcp/code_tools.py:193-232` | A wire position is shown at the first column before which at least its units lie, or at the end of the line; lines that do not exist count as empty. |
| `Positions.UserCharacter` | `src/mypr_mcp/code_tools.py:193-214` | The conversion loop returns one more than the code points that must be passed to reach the offset. |
| `Positions.UserRoundTrip` | `src/mypr_mcp/code_tools.py:170-232` | A one-based position converted to the wire and back is the same position. |
| `Positions.SpansHoldLines` | `src/mypr_mcp/lsp_edits.py:36-54` | The two line splitters of the program, with and without offsets, give the same lines. |
| `Positions.SpansLie` | `src/mypr_mcp/lsp_edits.py:36-54` | Every line lies in the text where its recorded start says. |
| `Positions.SpanStarts` | `src/mypr_mcp/lsp_edits.py:36-54` | Every line starts behind the lines before it and their terminators. |
| `Positions.OffsetIsAcceptedExactlyAtColumns` | `src/mypr_mcp/lsp_edits.py:57-98` | A wire offset is accepted exactly when it is that of a column: inside no code point and not past the end of the line. |
| `Positions.WirePositionAddressesColumn` | `src/mypr_mcp/lsp_edits.py:57-98` | A position sent to the server and returned in an edit addresses the same place of the text. |
| `DocumentMirror.RunKeepsMirror` | `src/mypr_mcp/code_tools.py:782-874` | In every run with delivered, unsent, cancelled, uncertain and broken writes and interference: the server accepts every notification, at most 128 documents are open, an uncertain write implies failure, and otherwise, unless the server is gone, the server sees exactly the client map of versions and texts. |
| `DocumentMirror.VersionsIncreaseWithinSession` | `src/mypr_mcp/code_tools.py:820-845` | In every accepted log the versions of a document strictly increase until it is closed. |
| `DocumentMirror.SendKeepsStep` | `src/mypr_mcp/code_tools.py:658-716` | A notification moves the server from the view of the old map to that of the new one exactly when the sender is told it was committed. |
| `DocumentMirror.SendConforms` | `src/mypr_mcp/code_tools.py:658-700` | No notification breaks the protocol, not even one whose delivery is in doubt. |
| `DocumentMirror.SendExactly` | `src/mypr_mcp/code_tools.py:658-716` | A notification is committed exactly when the connection is up and the write is delivered; what every fate of it does to the connection. |
| `DocumentMirror.EvictKeepsStep` | `src/mypr_mcp/code_tools.py:847-874` | Eviction never closes the excluded document; with one document too many it closes the least recently used other one, puts it back exactly when the close failed and could be undone, and otherwise meets the limit. |
| `DocumentMirror.OpenKeepsValid` | `src/mypr_mcp/code_tools.py:797-823` | Opening keeps the mirror for every fate of every write, and when it succeeds the document is open at version 1 with that text. |
| `DocumentMirror.ChangeKeepsValid` | `src/mypr_mcp/code_tools.py:824-845` | Changing keeps the mirror for every fate of the write, and when it succeeds the map holds the new text and language. |
| `DocumentMirror.OpensExactly` | `src/mypr_mcp/code_tools.py:797-823` | Opening for every fate of its writes: the document is announced, after the least recently used one is closed if the map was full; exactly when the answer is ready, cancelled or failed, what has been sent, and what is put back. |
| `DocumentMirror.ChangesExactly` | `src/mypr_mcp/code_tools.py:824-845` | Using an open document for every fate of the write: nothing is sent where nothing changed, else one change with the next version; exactly when the answer is ready, cancelled or failed, and what the map then holds. |
| `DocumentMirror.UndisturbedOpens` | `src/mypr_mcp/code_tools.py:782-874` | With the connection up and its writes delivered undisturbed, opening a new document is answered: it is last in the order with its text, and the server has received just the opening, after one closing if the map was full. |
| `DocumentMirror.UndisturbedChanges` | `src/mypr_mcp/code_tools.py:824-845` | So is using an open one, with one change sent, or none where its text and language are the same. |
| `DocumentMirror.HandleKeepsValid` | `src/mypr_mcp/code_tools.py:782-845` | Every request and every interference keeps the invariant. |
| `DocumentMirror.RunHandles` | `src/mypr_mcp/code_tools.py:782-845` | A run handles its events one after the other. |
| `DocumentMirror.FailedSendsNothing` | `src/mypr_mcp/code_tools.py:658-687` | After a failure nothing more is written, and after a broken pipe a write can only fail again: whatever is asked, the server receives nothing more. |
| `LanguageServer.Server.NotifyCommitted` | `src/mypr_mcp/code_tools.py:658-716` | A notification on the object state never breaks the protocol, and the view of the server moves from one document map to another exactly when the caller is told that it was committed. |
| `LanguageServer.Server.CloseDocument` | `src/mypr_mcp/code_tools.py:852-872` | Closing keeps the mirror of all documents but an excluded one, and the document stays open exactly when the close failed and could be undone. |
| `LanguageServer.Server.EvictDocuments` | `src/mypr_mcp/code_tools.py:847-874` | The eviction loop on the object state is the specified eviction. |
| `LanguageServer.Server.OpenDocument` | `src/mypr_mcp/code_tools.py:797-823` | Opening on the object state is the specified transition, rollback and cancellation included. |
| `LanguageServer.Server.ChangeDocument` | `src/mypr_mcp/code_tools.py:824-845` | Changing on the object state is the specified transition, rollback and cancellation included. |
| `LanguageServer.Server.RequireDocument` | `src/mypr_mcp/code_tools.py:782-845` | The entry point keeps the invariant and performs the specified transition. |
| `OperationLock.RunKeepsCount` | `src/mypr_mcp/code_tools.py:86-123` | In every interleaving of acquire, wake, cancelled wait, release and reservation, admitted equals holder plus waiters on every lock. |
| `OperationLock.StepsExactly` | `src/mypr_mcp/code_tools.py:96-123` | For every step of a lock: exactly when it is granted, and what it does to the line of admitted tasks and to the reservation. |
| `OperationLock.RemoveIsFirst` | `src/mypr_mcp/code_tools.py:100-105` | A cancelled wait leaves the other waiters in their order. |
| `OperationLock.RunTakesAll` | `src/mypr_mcp/code_tools.py:96-123` | A run takes its actions one after the other. |
| `OperationLock.ReserveAllOrNothing` | `src/mypr_mcp/code_tools.py:1849-1863` | With none of the targets reserved, an unforced reservation marks every target exactly when all are idle, and otherwise changes none. |
| `OperationLock.ReservationOfTargets` | `src/mypr_mcp/code_tools.py:1849-1863` | In a run, reserving some servers is the reservation pass over just these, and touches no other lock. |
| `OperationLock.RefusalRestoresExactly` | `src/mypr_mcp/code_tools.py:1849-1863` | A refused reservation restores every lock exactly when none of the targets was reserved before. |
| `OperationLock.RefusalCanDropAReservation` | `src/mypr_mcp/code_tools.py:1849-1863` | The concrete failing case: a refusal releases a reservation that somebody else held. |
| `OperationLock.ReservedAdmitsNobody` | `src/mypr_mcp/code_tools.py:96-117` | From a reservation on, in every interleaving with other reservations included, until it is unreserved or a refused reservation includes it, nobody is admitted to that server, and an idle server stays exactly as it was. |
| `OperationLock.AllReservedStays` | `src/mypr_mcp/code_tools.py:96-120` | Where every lock is reserved and idle, nothing but an explicit unreserve changes anything, reservations included. |
| `OperationLock.ReservationHolds` | `src/mypr_mcp/code_tools.py:1849-1863` | With none of the targets reserved, an unforced reservation succeeds exactly when all of them are idle; each target then stays idle and refuses every acquire until it is unreserved or a refused overlapping reservation includes it. A refusal changes no lock. |
| `OperationLock.ServerLock.Acquire` | `src/mypr_mcp/code_tools.py:96-105` | Unless the lock is reserved, the task joins the end of the line of admitted tasks, and admitted goes on counting that line. |
| `OperationLock.ServerLock.CancelWait` | `src/mypr_mcp/code_tools.py:100-105` | A cancelled wait takes exactly that task out of the waiters, leaves the holder, and admitted goes on counting. |
| `OperationLock.ServerLock.Release` | `src/mypr_mcp/code_tools.py:107-109` | Releasing serves the line in order: its first task leaves, and admitted goes on counting. |
| `OperationLock.ReserveNeedsIdle` | `src/mypr_mcp/code_tools.py:114-120` | Without force, a lock that is not reserved yet is reserved exactly when nobody holds it or waits for it. |
| `OperationLock.WakeKeepsLine` | `src/mypr_mcp/code_tools.py:96-109` | Handing a released lock to the first waiter changes neither who is admitted nor the order of service. |
| `OperationLock.ReserveTargets` | `src/mypr_mcp/code_tools.py:1849-1863` | The reservation loop with its undo loop is the specified reservation of the targets. |
| `AstRewrite.WrittenIsSplice` | `src/mypr_mcp/ast_rewrite.py:531-574` | One forward pass with a cursor writes the simultaneous replacement of the disjoint ranges. |
| `AstRewrite.AcceptableIsSorted` | `src/mypr_mcp/ast_rewrite.py:531-574` | The incremental checks accept exactly the records that are in range, on character boundaries, encodable, disjoint and in order. |
| `AstRewrite.RewrittenIsValid` | `src/mypr_mcp/ast_rewrite.py:531-578` | Rewriting valid UTF-8 gives valid UTF-8. |
| `AstRewrite.RewrittenInPieces` | `src/mypr_mcp/ast_rewrite.py:531-574` | The rewritten file is what the file has before, between and behind the matches, and for each match its replacement with the same lines and every terminator in the style of that place; there is exactly one such text a match. |
| `AstRewrite.StopsExactly` | `src/mypr_mcp/ast_rewrite.py:539-566` | Each error has its own reason at any place of the pass and under any bound. |
| `AstRewrite.ApplyMatch` | `src/mypr_mcp/ast_rewrite.py:536-566` | One record: the exact error in the order of the tests, or the gap and the normalized text appended. |
| `AstRewrite.ApplyMatches` | `src/mypr_mcp/ast_rewrite.py:531-584` | The whole pass: the simultaneous replacement, OutputLimit exactly when that exceeds the bound, or the error of the first record that stops the pass. |
| `AstRewrite.FailsOnce` | `src/mypr_mcp/ast_rewrite.py:531-584` | There is only one such record: every record before it passes, within the bound. |
| `Utf8.CutIsValidExactlyAtBoundary` | `src/mypr_mcp/ast_rewrite.py:577-578` | Cutting valid UTF-8 leaves two valid halves exactly at the offsets the program accepts (RFC 3629, section 4). |
| `Utf8.EncodeIsValid` | `src/mypr_mcp/ast_rewrite.py:560-566` | Encoding text without lone surrogates gives valid UTF-8. |
| `Utf8.DecodeInverts` | `src/mypr_mcp/ast_rewrite.py:560-566` | Text without lone surrogates is read back as it was encoded. |
| `Newlines.NewlineTracker.Scan` | `src/mypr_mcp/ast_rewrite.py:594-609` | Moving the scanned boundary forward keeps the cached last terminator right, also when CRLF straddles the boundary. |
| `Newlines.NewlineTracker.Style` | `src/mypr_mcp/ast_rewrite.py:594-626` | For non-decreasing offsets the incremental answer is that of a stateless scan. |
| `Newlines.StyleComesFromTheFile` | `src/mypr_mcp/ast_rewrite.py:587-626` | The style is always one of the terminators of the file, or LF in a file without one; so a uniform file gets its own terminator everywhere. |
| `Newlines.StyleIsNearest` | `src/mypr_mcp/ast_rewrite.py:594-626` | The style is that of the last terminator before the offset, else of the first after it; in a file with one style it is that one everywhere. |
| `TextLines.NormalizeKeepsLines` | `src/mypr_mcp/ast_rewrite.py:629-634` | Normalizing terminators changes no line of the text. |
| `TextLines.NormalizeIsUniform` | `src/mypr_mcp/ast_rewrite.py:629-634` | After normalizing every terminator has the given style. |
| `TextLines.LinesRejoin` | `src/mypr_mcp/lsp_edits.py:36-54` | The lines of a text and their terminators put together again are the text. |
| `TextLines.LinesAreWhole` | `src/mypr_mcp/lsp_edits.py:36-54` | No line holds a carriage return or line feed, and each terminator is one of the three. |
| `TextLines.EndingsNeverSplit` | `src/mypr_mcp/lsp_edits.py:36-54` | A carriage return followed by a line feed is always one terminator. |
| `TextLines.LinesAndStyleDetermine` | `src/mypr_mcp/ast_rewrite.py:629-634` | Two texts with the same lines and one and the same terminator are equal. |
| `ConfigLens.SetThenLookup` | `src/mypr_mcp/config.py:973-983` | After setting a path, that path reads the value and every path apart from it reads as before. |
| `ConfigLens.UnsetThenLookup` | `src/mypr_mcp/config.py:986-995` | After unsetting a path, that path is absent and every path apart from it reads as before. |
| `ConfigLens.MergeServers` | `src/mypr_mcp/config.py:684-713` | The merging loop computes the layered map: a tombstone removes, a definition replaces. |
| `ConfigLens.EditNames` | `src/mypr_mcp/config.py:1221-1246` | Editing name by name changes exactly the named entries, keeps every other path of the document, and leaves the document untouched if no entry changes. |
| `ConfigLens.SaveServers` | `src/mypr_mcp/config.py:1194-1252` | The save leaves the specified layer, nothing else changed, in both modes. |
| `ConfigLens.SaveMailAccounts` | `src/mypr_mcp/config.py:1308-1359` | The save leaves the specified layer, nothing else changed, in both modes. |
| `ConfigLens.ServersGetAfterPut` | `src/mypr_mcp/config.py:1222-1246` | For all valid layers, reading the merged map after saving gives exactly the desired map. |
| `ConfigLens.GlobalServersGetAfterPut` | `src/mypr_mcp/config.py:1213-1220` | Without a workspace file the saved layer and the map read back are the desired map. |
| `ConfigLens.ServersPutTwice` | `src/mypr_mcp/config.py:1222-1246` | What a save leaves is a valid layer, and saving the same map again changes nothing. |
| `ConfigLens.ServersPutAfterGet` | `src/mypr_mcp/config.py:1222-1246` | Saving the map that was read changes no entry, but drops tombstones that hide nothing. |
| `ConfigLens.AccountsPutAfterGet` | `src/mypr_mcp/config.py:1308-1359` | So does saving the accounts that were read. |
| `ConfigLens.LeastChange` | `src/mypr_mcp/config.py:1222-1246` | A save changes as little as it can: an entry that reads as wanted stays as it is written, and a definition is only written where neither the entry nor what it inherits reads as wanted. |
| `ConfigLens.TombstonesAreNeeded` | `src/mypr_mcp/config.py:1226-1235` | A workspace tombstone is left exactly for a name that is active globally and not desired. |
| `ConfigLens.AccountsGetAfterPut` | `src/mypr_mcp/config.py:1308-1359` | With a workspace, reading after saving gives the desired accounts, desired tombstones reading as absent. |
| `ConfigLens.AccountsPutTwice` | `src/mypr_mcp/config.py:1308-1359` | With a workspace, a save of accounts leaves a valid layer, and saving the same accounts again changes nothing. |
| `ConfigLens.GlobalAccountsGetAfterPutExactly` | `src/mypr_mcp/config.py:1323-1359` | Without a workspace the law holds exactly when no desired account is already stored in the desired form. |
| `ConfigLens.SavingAnAccountAgainDeletesIt` | `src/mypr_mcp/config.py:1356-1357` | The concrete failing case: saving the only stored account again deletes it. |
| `ObservationEvents.FitIsAbridged` | `src/mypr_mcp/browser_observation.py:165-181` | Fitting gives an event within the budget, or the stub only where the event exceeds it with its texts empty and without its location; text, URL, error and status text are cut in this order, each only once those before it are empty, then the location goes. An event that fits is only marked. |
| `ObservationEvents.ShorterWeighsLess` | `src/mypr_mcp/browser_observation.py:171-176` | The loop that cuts a text ends, although a cut text may be longer than before by its ellipsis: the text before the ellipsis shrinks, or the ellipsis goes. |
| `ObservationEvents.ShorterIsCut` | `src/mypr_mcp/browser_observation.py:171-176` | However often a text is cut, it is a front of the original, with at most one ellipsis behind it. |
| `ObservationEvents.ShorterKeepsHalf` | `src/mypr_mcp/browser_observation.py:172-175` | One round keeps as many characters as half of the bytes allow, or drops the last one where that changes nothing. |
| `ObservationEvents.EventSizeIsEncoded` | `src/mypr_mcp/browser_observation.py:161-162` | The computed size of an event is the number of bytes of its compact JSON. |
| `ObservationEvents.Fit` | `src/mypr_mcp/browser_observation.py:165-181` | The loops over the texts and the location give the specified event. |
| `ObservationBuffer.ClientBuffer.Append` | `src/mypr_mcp/browser_observation.py:208-230` | An appended event gets the next cursor, is stored whole, clipped or as a stub, and always stays; the front is evicted until count and bytes are within limits and not one event further; cursors stay contiguous and the byte count exact. |
| `ObservationBuffer.StoredExactly` | `src/mypr_mcp/browser_observation.py:211-219` | An event is stored whole if it fits, else clipped if that fits, and else as a stub. |
| `ObservationBuffer.SumParts` | `src/mypr_mcp/browser_observation.py:220-225` | The bytes of a history are those of its events together. |
| `ObservationBuffer.DroppedIsExact` | `src/mypr_mcp/browser_observation.py:536-540` | dropped is reported exactly when some event after the cursor was evicted. |
| `ObservationBuffer.LaterIsTransitive` | `src/mypr_mcp/browser_observation.py:208-230` | What a history can become by appending and evicting composes. |
| `ObservationPages.MatchingIsFilter` | `src/mypr_mcp/browser_observation.py:541-547` | The matching list holds exactly the wanted retained events, with rising cursors. |
| `ObservationPages.Offer` | `src/mypr_mcp/browser_observation.py:553-581` | One event is offered whole if it fits the page, else cut to the room there is, if that is worth it. |
| `ObservationPages.Select` | `src/mypr_mcp/browser_observation.py:548-585` | The selection loop takes exactly what the specification takes. |
| `ObservationPages.TakeIsHonest` | `src/mypr_mcp/browser_observation.py:548-585` | Each selected event is the wanted one, or that one cut to the room there was because it did not fit whole; every front of the selection fits its measured page; nothing is cut without saying so; and the selection stops short only where the next event fits neither whole nor cut. |
| `ObservationPages.Read` | `src/mypr_mcp/browser_observation.py:534-601` | One read gives the specified page, and is refused exactly when its final size exceeds the limit. |
| `ObservationPages.StartsAtOldest` | `src/mypr_mcp/browser_observation.py:536-540` | A read without a cursor starts before every retained event and reports none as lost; any other starts at its cursor. |
| `ObservationPages.PageIsExact` | `src/mypr_mcp/browser_observation.py:534-599` | Every page holds the first wanted events up to its next cursor, once and in order, whole or honestly cut, and says exactly whether more follow and whether events were lost; a start past every event leads back to the newest one. |
| `ObservationPages.PageMarksCuts` | `src/mypr_mcp/browser_observation.py:571-586` | A page is only marked as truncated if an event of it was cut because it did not fit whole, or the next one was tried that way. |
| `ObservationPages.PageSizeIsSent` | `src/mypr_mcp/browser_observation.py:481-496` | The computed size of a page is the number of bytes of its compact JSON. |
| `ObservationPages.EmptyExactlyIfStuck` | `src/mypr_mcp/browser_observation.py:553-584` | A page is empty with more to come exactly when the first wanted event fits neither whole nor cut. |
| `ObservationPages.StuckIsTheMargin` | `src/mypr_mcp/browser_observation.py:562-584` | Where the stub has room, that is exactly when the event exceeds what the page has left and is cut to one or two bytes more than that: the two bytes added to the room. |
| `ObservationPages.StuckUntilEvicted` | `src/mypr_mcp/browser_observation.py:587-591` | A reader that is stuck stays at its cursor, and reading again is stuck again, whatever events follow. |
| `ObservationPages.MarginStopsReader` | `src/mypr_mcp/browser_observation.py:570-584` | At every limit from 1024 bytes there is an event with which a reader is stuck on every retry. |
| `ObservationPages.RefusedExactly` | `src/mypr_mcp/browser_observation.py:587-601` | A read is refused exactly when everything wanted was selected and the page, finished, is larger than the limit; it then holds events and none follow. |
| `ObservationPages.RefusedWholeExactly` | `src/mypr_mcp/browser_observation.py:587-601` | Without a cut event, the refused reads are exactly those whose wanted events together fit a page that says more follow but not the finished one. |
| `ObservationPages.FullPageIsRefused` | `src/mypr_mcp/browser_observation.py:599-601` | At every limit from 1024 bytes there is an event that fits the measured page to the last byte and is refused. |
| `ObservationPages.ChainIsExact` | `src/mypr_mcp/browser_observation.py:534-601` | Over any chain of reads with appends and evictions in between, delivered cursors strictly increase, and of whatever history remains the wanted events up to the last cursor are exactly those delivered. |
| `ObservationBudget.Observations.EnforceWorkspaceBudget` | `src/mypr_mcp/browser_observation.py:843-878` | Ends in every state; totals are within limits and at most 128 clients remain unless every client left observes a page and nothing is retained; idle clients go first and in recency order, then each client is drained before the next; and just before the last client or event went, the same rules had led to a state still over a limit. |
| `ObservationBudget.NothingGoesWithinLimits` | `src/mypr_mcp/browser_observation.py:843-849` | So within the limits nothing is evicted, because eviction only ever lowers the totals. |
| `ObservationBudget.Observations.DrainOldest` | `src/mypr_mcp/browser_observation.py:861-878` | One round: the least recently used client loses its oldest event or goes to the end. |
| `ObservationBudget.Observations.RemoveOwner` | `src/mypr_mcp/browser_observation.py:801-825` | Removing a client keeps order and totals exact. |
| `ObservationBudget.RemovalKeepsRemovedIdle` | `src/mypr_mcp/browser_observation.py:850-860` | The clients removed are always exactly the idle ones of a prefix of the recency order. |
| `ObservationBudget.DrainStepHolds` | `src/mypr_mcp/browser_observation.py:861-878` | Every round keeps the order of draining until all histories are empty. |
| `SnapshotStore.ExpireIsFullScan` | `src/mypr_mcp/browser_snapshots.py:423-430` | Because access times never decrease along the recency order, stopping early expires exactly what a full scan would. |
| `SnapshotStore.ExpiresExactly` | `src/mypr_mcp/browser_snapshots.py:423-430` | Exactly the snapshots that were not used for the time to live go. |
| `SnapshotStore.CommitKeepsValid` | `src/mypr_mcp/browser_snapshots.py:135-146` | Storing keeps every cached size, total and count exact and all limits met, and the new snapshot is stored and newest. |
| `SnapshotStore.CommitSettles` | `src/mypr_mcp/browser_snapshots.py:135-146` | Which earlier snapshots are still stored after a capture: all that are neither expired, nor among the fewest oldest of the client that make room for it, nor among the fewest least recently used that bring the workspace within its limits. |
| `SnapshotStore.CommitKeepsAllWithRoom` | `src/mypr_mcp/browser_snapshots.py:135-146` | Where nothing is expired and there is room, everything stays. |
| `SnapshotStore.EvictKeepsNewest` | `src/mypr_mcp/browser_snapshots.py:432-442` | Workspace eviction never removes the newest snapshot. |
| `SnapshotStore.EvictKeepsValid` | `src/mypr_mcp/browser_snapshots.py:432-442` | Workspace eviction drops a front part of the recency order, keeps the caches exact and ends within the limits. |
| `SnapshotStore.EvictDropsJust` | `src/mypr_mcp/browser_snapshots.py:432-442` | Workspace eviction drops just enough of the front of the recency order: with one snapshot fewer dropped, a limit would still be exceeded. |
| `SnapshotStore.TrimKeepsValid` | `src/mypr_mcp/browser_snapshots.py:139-142` | Trimming a client keeps the caches exact and makes room. |
| `SnapshotStore.TrimDropsJust` | `src/mypr_mcp/browser_snapshots.py:139-142` | Trimming drops just enough of the client's oldest snapshots, and keeps the order of all others. |
| `SnapshotStore.TouchKeepsValid` | `src/mypr_mcp/browser_snapshots.py:395-399` | Touching keeps the order of access times. |
| `SnapshotStore.TouchIsUse` | `src/mypr_mcp/browser_snapshots.py:395-399` | Touching makes a snapshot the newest, used now, and leaves the others as they are. |
| `SnapshotStore.RemoveKeepsValid` | `src/mypr_mcp/browser_snapshots.py:409-421` | Removing one snapshot keeps every cache exact. |
| `SnapshotStore.ClearOwnerKeepsValid` | `src/mypr_mcp/browser_snapshots.py:365-371` | Clearing one client removes exactly its snapshots and keeps every cache exact. |
| `BrowserSnapshots.TokensRise` | `src/mypr_mcp/browser_snapshots.py:355-366` | The pair of generations strictly increases at every clear that affects the owner and never changes otherwise, although a global clear resets the owner generations. |
| `BrowserSnapshots.StoredExactlyIfNotCleared` | `src/mypr_mcp/browser_snapshots.py:98-134` | In every interleaving of captures and clears, a capture is stored exactly when no clear affecting its owner happened while it ran. |
| `BrowserSnapshots.StepKeepsSettled` | `src/mypr_mcp/browser_snapshots.py:355-442` | Every operation keeps all caches exact and all limits met. |
| `BrowserSnapshots.StepKeepsCaptured` | `src/mypr_mcp/browser_snapshots.py:98-146` | No operation, the end of an overtaken capture included, leaves a snapshot stored whose capture began before a clear that affects its client. |
| `BrowserSnapshots.StoredUnlessOvertaken` | `src/mypr_mcp/browser_snapshots.py:130-146` | A capture that ends is stored exactly if no clear that affects its client happened since it began; else nothing changes. |
| `BrowserSnapshots.StepsExactly` | `src/mypr_mcp/browser_snapshots.py:98-146` | What every operation does to the captures in flight, to the generations and to what has happened. |
| `BrowserSnapshots.Run` | `src/mypr_mcp/browser_snapshots.py:98-146` | In every reachable state, with captures in flight while snapshots are accessed, collected and cleared, all caches are exact, all limits hold, and the capture of every stored snapshot began after the last clear that affects its client. |
| `BrowserSnapshots.RunSteps` | `src/mypr_mcp/browser_snapshots.py:98-146` | A run takes its operations one after the other. |
| `BrowserSnapshots.PopIsTrim` | `src/mypr_mcp/browser_snapshots.py:135-146` | Inserting first and trimming afterwards, with the size cached at the end, leaves what trimming first and inserting afterwards leaves. |
| `BrowserSnapshots.Snapshots.StoreCapture` | `src/mypr_mcp/browser_snapshots.py:130-146` | A capture overtaken by a clear is refused; any other is stored with all limits met. |
| `BrowserSnapshots.Snapshots.Insert` | `src/mypr_mcp/browser_snapshots.py:135-145` | The insert-then-trim loop gives the specified store. |
| `BrowserSnapshots.Snapshots.ExpireOld` | `src/mypr_mcp/browser_snapshots.py:423-430` | The early-break loop gives the specified expiry. |
| `BrowserSnapshots.Snapshots.EnforceWorkspaceBudget` | `src/mypr_mcp/browser_snapshots.py:432-442` | Expiry and the eviction loop give the specified store. |
| `BrowserSnapshots.Snapshots.TouchSnapshot` | `src/mypr_mcp/browser_snapshots.py:395-399` | Touching on the object state. |
| `BrowserSnapshots.Snapshots.ClearAll` | `src/mypr_mcp/browser_snapshots.py:355-363` | After a global clear nothing is stored, the caches are exact, and every capture still running will be refused. |
| `BrowserSnapshots.Snapshots.ClearClient` | `src/mypr_mcp/browser_snapshots.py:364-371` | After a clear of one client exactly its snapshots are gone, the caches are exact, and exactly its running captures will be refused. |
| `SnapshotPager.PageIsNextStretch` | `src/mypr_mcp/browser_snapshots.py:461-495` | Every page is the next stretch of the capture, fits its limit, and moves on unless it is the last. |
| `SnapshotPager.CutTextIsLongest` | `src/mypr_mcp/browser_snapshots.py:484-486` | The stretch that is tried first is the longest that the bytes left by the metadata allow. |
| `SnapshotPager.ShrinkHalvesJust` | `src/mypr_mcp/browser_snapshots.py:487-490` | It is halved no more often than it takes to fit. |
| `SnapshotPager.RefusedEarlyExactly` | `src/mypr_mcp/browser_snapshots.py:461-483` | A request is refused before its text is cut exactly where the cursor is past the end or an empty page is too large. |
| `SnapshotPager.RefusedLateExactly` | `src/mypr_mcp/browser_snapshots.py:484-495` | And afterwards exactly where the page is still too large, or has more to come but no text. |
| `SnapshotPager.PageSizeIsSent` | `src/mypr_mcp/browser_snapshots.py:445-447` | The computed size of a page is the number of bytes of its compact JSON. |
| `SnapshotPager.PagesAreTheCapture` | `src/mypr_mcp/browser_snapshots.py:461-495` | Following the cursors with any limits, the concatenated texts are the capture: nothing lost, nothing repeated. |
| `SnapshotPager.PagingNeverStops` | `src/mypr_mcp/browser_snapshots.py:461-495` | A limit with room for metadata, cursor and one escaped character never stops the paging. |
| `SnapshotPager.PagingReachesTheEnd` | `src/mypr_mcp/browser_snapshots.py:461-495` | With such limits the end is always reached. |
| `SnapshotPager.Cut` | `src/mypr_mcp/browser_snapshots.py:45-54` | The byte-counting loop cuts the longest prefix of whole characters. |
| `SnapshotPager.Halve` | `src/mypr_mcp/browser_snapshots.py:461-495` | The halving loop is the specified shrinking. |
| `SnapshotPager.MakePage` | `src/mypr_mcp/browser_snapshots.py:461-495` | The whole page construction, errors included, is the specified one. |
| `JsonText.CutIsLongest` | `src/mypr_mcp/browser_snapshots.py:45-54` | The cut fits, and one more character would not. |
| `JsonText.EscapedBounds` | `src/mypr_mcp/browser_snapshots.py:45-54` | Escaped text takes at least one and at most six bytes a byte. |
| `SnapshotSearch.Find` | `src/mypr_mcp/browser_snapshot_worker.py:30-82` | Whatever budget stops the scan, the page holds exactly the matches from its offset to its next line, says exactly whether a later match exists, and is empty only if none does; two matches or more stay within the 30 KiB output budget, and a page that stops before its limit stops where the next match exceeds it. |
| `SnapshotSearch.MatchIsExact` | `src/mypr_mcp/browser_snapshot_worker.py:49-56` | A match names its line and column, holds as much of the front of the line as fits 4 KiB, and says exactly whether that is all of it. |
| `SnapshotSearch.HitsExactly` | `src/mypr_mcp/browser_snapshot_worker.py:30-82` | The list of matches holds exactly those of the matching lines in the range. |
| `SnapshotSearch.HitsRise` | `src/mypr_mcp/browser_snapshot_worker.py:30-82` | It lists them by rising line. |
| `SnapshotSearch.ResponseSizeIsSent` | `src/mypr_mcp/browser_snapshot_worker.py:139-148` | The size the worker computes is the number of bytes it writes. |
| `SnapshotSearch.ClientSizeIsSent` | `src/mypr_mcp/browser_snapshots.py:193-205` | The size of a client page is the number of bytes of its compact JSON. |
| `SnapshotSearch.LookAhead` | `src/mypr_mcp/browser_snapshot_worker.py:69-80` | The look-ahead finds a match exactly if one follows. |
| `SnapshotSearch.TrimKeepsExact` | `src/mypr_mcp/browser_snapshots.py:201-205` | Popping matches until the page fits keeps it exact and never empties it. |
| `SnapshotSearch.TrimDropsJust` | `src/mypr_mcp/browser_snapshots.py:201-205` | No match is dropped but to make the page fit. |
| `SnapshotSearch.Trim` | `src/mypr_mcp/browser_snapshot_worker.py:141-148` | The popping loop is the specified trimming. |
| `SnapshotSearch.OneMatchIsSmall` | `src/mypr_mcp/browser_snapshot_worker.py:30-82` | A snippet of 4096 bytes escapes to at most six times that, so one match fits both limits. |
| `SnapshotSearch.SinglesFit` | `src/mypr_mcp/browser_snapshot_worker.py:141-148` | Any page with a single match fits the worker response and the client page. |
| `SnapshotSearch.SearchPage` | `src/mypr_mcp/browser_snapshots.py:148-205` | A page after both trimming passes is exact and within the client limit. |
| `SnapshotSearch.SearchAll` | `src/mypr_mcp/browser_snapshots.py:148-205` | Following search cursors to the end returns every matching line once and in order, and always makes progress. |
| `DiagnosticPages.FitIsExact` | `src/mypr_mcp/diagnostic_snapshots.py:67-109` | A rendered page is at most 32 KiB, shows the rows from its offset to its end, or omits exactly one row that fits no page of its own. |
| `DiagnosticPages.FitIsLargest` | `src/mypr_mcp/diagnostic_snapshots.py:67-109` | A page shows as many rows as fit, and says exactly whether it was shortened; a row is only omitted, or the request refused, where no number of rows fits. |
| `DiagnosticPages.RenderStartsWithLimit` | `src/mypr_mcp/diagnostic_snapshots.py:67-75` | A page starts with as many rows as were asked for, or all that are left. |
| `DiagnosticPages.PagesShowEveryRow` | `src/mypr_mcp/diagnostic_snapshots.py:24-109` | For any positive limits, following pages shows every row once and in order, except oversized ones reported as omitted. |
| `DiagnosticPages.Diagnostics.DropCursors` | `src/mypr_mcp/diagnostic_snapshots.py:130-134` | Exactly the cursors of one snapshot go, and the two maps stay inverse. |
| `DiagnosticPages.Diagnostics.Expire` | `src/mypr_mcp/diagnostic_snapshots.py:123-128` | Exactly the expired snapshots and their cursors go; the others keep their order of use. |
| `DiagnosticPages.Diagnostics.SetCursor` | `src/mypr_mcp/diagnostic_snapshots.py:111-121` | The cursor of an offset is minted once, leads there, and no other cursor changes. |
| `DiagnosticPages.Diagnostics.RenderPage` | `src/mypr_mcp/diagnostic_snapshots.py:67-109` | The popping loop gives the specified page and the cursor of its end. |
| `DiagnosticPages.Diagnostics.FirstPage` | `src/mypr_mcp/diagnostic_snapshots.py:34-65` | A first page stores a snapshot and returns its specified page; of the earlier snapshots those not expired stay, the most recently used up to the limit, and with them all their cursors. |
| `DiagnosticPages.Diagnostics.EvictOver` | `src/mypr_mcp/diagnostic_snapshots.py:46-48` | Only the least recently used snapshots over the limit go, with exactly their cursors; the newest stays. |
| `DiagnosticPages.Diagnostics.NextPage` | `src/mypr_mcp/diagnostic_snapshots.py:50-65` | A cursor is refused exactly when it was not issued or its snapshot has gone; otherwise the snapshot is always there and the page advances. |
| `DiagnosticPages.Serve` | `src/mypr_mcp/diagnostic_snapshots.py:34-65` | Any request of anybody takes a snapshot that has not expired at most one place down the order of use, and it stays with all its cursors while that place is within the limit. |
| `DiagnosticPages.TurnPages` | `src/mypr_mcp/diagnostic_snapshots.py:34-65` | A client that follows its cursors before expiry, with fewer other requests between two turns than snapshots are kept, is never refused a cursor: it is shown the rows behind its first cursor once each and in order, at least one a turn, up to the last; it stops early only at a row where not even an empty page fits. |
| `AppliedLsp.RunConverges` | `src/mypr_mcp/config_runtime.py:129-166` | In every run of kernels that change, report and are replaced, with reordered, repeated, delayed and stale deliveries, the manager holds exactly the definitions of the highest sequence number delivered for the running kernel; once the latest report has arrived, the definitions of that kernel. |
| `AppliedLsp.ActConverges` | `src/mypr_mcp/config_runtime.py:123-149` | Every step keeps the agreement. |
| `AppliedLsp.AcceptedExactlyIfNewest` | `src/mypr_mcp/config_runtime.py:129-149` | A report is acknowledged exactly when it is for the running kernel and none newer was delivered. |
| `AppliedLsp.RecordsExactly` | `src/mypr_mcp/config_runtime.py:129-149` | What becomes of any report, whatever the manager has recorded: exactly when it is refused, acknowledged without a change, or recorded, and what is recorded then. |
| `AppliedLsp.ChangeArrives` | `src/mypr_mcp/config_runtime.py:129-149` | In every run, a change of the running kernel that is sent and arrives is what the manager holds. |
| `AppliedLsp.ReportKeepsExactly` | `src/mypr_mcp/config_runtime.py:129-149` | For every state of agreement and every report addressed to the running kernel: a number reached before changes nothing, a newer one keeps the agreement exactly if the report is truthful, and a report without a number exactly if nothing is recorded yet or it repeats what the manager holds. |
| `AppliedLsp.UnnumberedCanRegress` | `src/mypr_mcp/config_runtime.py:146-149` | An input outside that condition: an unnumbered stale report replaces newer definitions, and repeating the newer report is refused. |
| `AppliedLsp.ResetKeepsExactly` | `src/mypr_mcp/config_runtime.py:123-127` | For every state of agreement, resetting the running generation keeps it exactly while no numbered report of that kernel has been recorded. |
| `AppliedLsp.ResetCanRegress` | `src/mypr_mcp/config_runtime.py:123-127` | An input outside that condition: after a reset while the same kernel runs, an older report is taken again. |
| `AppliedLsp.RuntimeConfig.RecordLsp` | `src/mypr_mcp/config_runtime.py:129-149` | Recording on the object state, with the acknowledgement, is the specified transition. |
| `AppliedLsp.RuntimeConfig.ReconcileLateLsp` | `src/mypr_mcp/config_runtime.py:151-166` | A late reply is recorded only if it is complete and current, and then the configuration is copied. |
| `AppliedLsp.RuntimeConfig.RecordReload` | `src/mypr_mcp/config_runtime.py:263-280` | A reload records what the kernel applied under the number it replied with. |
| `AppliedLsp.RuntimeConfig.ResetLspGeneration` | `src/mypr_mcp/config_runtime.py:123-127` | After a reset to the running kernel its first report is recorded whatever its number; an empty generation is refused. |
| `AppliedLsp.CodeTools.Apply` | `src/mypr_mcp/code_tools.py:3138-3151` | Each change of definitions counts the sequence number up by one. |
| `AppliedLsp.CodeTools.ReportApplied` | `src/mypr_mcp/code_tools.py:2050-2065` | A report pairs the sequence number with the definitions it stands for. |
| `ErrorBounds.BoundedFits` | `src/mypr_mcp/diagnostics.py:177-193` | For every description and every limit of at least 128 the encoded result is at most the limit; details go first, then the operation, then the ends of type, code and message, each only when still too large. |
| `ErrorBounds.ErrorInfo` | `src/mypr_mcp/diagnostics.py:124-193` | The whole operation ends, is refused exactly below 128, and returns the specified description within the limit. |
| `ErrorBounds.DraftSays` | `src/mypr_mcp/diagnostics.py:140-171` | What a description says before it is bounded: the longest fronts of message, code, type and operation that their limits allow, and truncated exactly if the message was cut, the byte budget used up or an attribute unreadable. |
| `ErrorBounds.DetailsAreWhole` | `src/mypr_mcp/diagnostics.py:147-163` | With four bytes and a node left over, the details hold everything, with line, column and path behind them. |
| `ErrorBounds.ExtrasComeLast` | `src/mypr_mcp/diagnostics.py:158-161` | Line, column and path are added behind the details, and never replace one of them. |
| `ErrorBounds.ShrinkField` | `src/mypr_mcp/diagnostics.py:189-192` | The halving loop is the specified shrinking. |
| `ErrorBounds.ShrinkFacts` | `src/mypr_mcp/diagnostics.py:189-192` | Halving ends with the size met or one code point left, and changes only that text. |
| `ErrorBounds.ShrinkHalvesJust` | `src/mypr_mcp/diagnostics.py:189-192` | A text is halved no more often than it takes to fit. |
| `ErrorBounds.SkeletonFits` | `src/mypr_mcp/diagnostics.py:189-193` | With one code point in each text and nothing optional the encoding is below 128 bytes. |
| `ErrorBounds.EncodedSizeIs` | `src/mypr_mcp/diagnostics.py:172-177` | The byte count of the compact JSON text, escapes included, as a sum over its parts. |
| `JsonValues.RenderedSize` | `src/mypr_mcp/diagnostics.py:172-177` | The size of a JSON value, computed from its structure, is the number of bytes of its compact text. |
| `ErrorBounds.SafeTextFits` | `src/mypr_mcp/diagnostics.py:54-65` | Bounded text fits, is a prefix in whole characters, and is complete exactly when it fits whole. |
| `ErrorBounds.CopyIsWhole` | `src/mypr_mcp/diagnostics.py:68-121` | For every value and all budgets: with four bytes and a node left at the end, the copy is the whole value, up to the fixed limits of texts and depth. |
| `ErrorBounds.CopyCosts` | `src/mypr_mcp/diagnostics.py:68-121` | Budgets larger than what the whole copy takes give the whole copy, and are used up by just that much: one node a value, the bytes of each kept text, and four more a name. |
| `ErrorBounds.CopyIsPruned` | `src/mypr_mcp/diagnostics.py:68-121` | Whatever the budgets: each copy is its value, a front of its text, of its members or of its elements, or a marker in its place. |
| `ErrorBounds.NodesRunOutUnmarked` | `src/mypr_mcp/diagnostics.py:168-169` | The mark of a truncated description depends on the byte budget only: a list of more than 126 nulls loses elements without it. |
| `ErrorBounds.PutMemberKeeps` | `src/mypr_mcp/diagnostics.py:103-110` | Members whose names are cut alike replace each other in place; all others keep their values and their order. |
| `ErrorBounds.CopyIsPaidFor` | `src/mypr_mcp/diagnostics.py:68-121` | For every value without a list with elements at the deepest level, copied details have at most as many nodes as the byte and node budgets they used. |
| `ErrorBounds.DeepListIsFree` | `src/mypr_mcp/diagnostics.py:112-118` | A list at the deepest level is copied in full without using either budget. |
| `ErrorBounds.DeepListIsPaidExactly` | `src/mypr_mcp/diagnostics.py:112-118` | At that level the bound is exact: a list there is paid for exactly when it has no elements or is itself the last node allowed. |
| `ErrorBounds.DeepListEscapes` | `src/mypr_mcp/diagnostics.py:68-121` | Details holding a list under mappings down to the deepest level: whatever the budgets, the copy has a node for every element and takes five units of both together a mapping and one for the list (16 from the top), so it exceeds every budget once the list is long enough. |

## Left out

- Operating system and transport: processes, signals, sockets, file locks, temporary files and journals. A write to a language server is delivered, not sent, uncertain or broken; a frame queued before another task's write became uncertain may still count as delivered.
- URI decoding, workspace containment, symbolic links and file modes: paths are names, and a file that cannot be read is `Unreadable`.
- The text-edit function of the compiler is a parameter, so its theorem holds for any; `TextEdits.ApplyTextEdits` models the program's own, on decoded text. Digests are an injective function.
- The single-rename and unchanged-update plans of the file transaction, which differ only in how the same contents are written.
- Diagnostics kept for open documents, and the language of a document after it was opened, which the program never sends again.
- Forced replacement, where running operations end with an error of their own.
- `Positions.WirePositionAddressesColumn`: counts widths also for lone surrogates, on which the program raises an encoding error.
- Configuration tables are edited as values; aliasing between parsed tables and the comment and order preservation of the TOML library are not modelled. Validation is an abstract normalization of definitions.
- `save_server` for one name, web and dependency settings, and the explanation of where a value comes from: easier members of the same family.
- The request records of an observation buffer, the wait for new events, the filters of events (any predicate), clients closing pages, and expiry before the budget is enforced; a failing first observation, which can leave a client outside the recency order, is not modelled.
- JSON sizes of stored observations and of diagnostic pages are any function; for observation pages, snapshot pages, search and errors they are those of the rendered JSON. Observations with lone surrogates, which the program cannot encode, are not recorded.
- Search patterns are any function from a line to a first column; regular expressions are not modelled.
- The clock is read once for each operation, although the program reads it several times, and random tokens are numbers never used twice.
- `ErrorBounds.JsonDetails`: threads the two shared budget cells through values instead of updating them in place.
- `WorkspaceEdit.Transact`: the replay inside the file transaction is modelled on values; `EditPlanner` has the compiler and the first replay in their imperative form.
- Reading attributes of an exception may fail at any point; the model has one flag for it and takes what was read before as given.
- The bridge, the command line, start-up checks, dependency and document services, history, change plans and paging of workspace diagnostics: plumbing, or easier members of families treated above.
