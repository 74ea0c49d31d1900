# Protocols of the Harness Harlot desktop client

The desktop client of the terminal session service keeps its state consistent with the
service, with remote hosts and with embedded browsers through a handful of small
protocols. This project models each of them as explicit state plus steps and proves what
every step, every whole run or every fault pattern keeps.

- **Terminal input** (`TerminalInput`, `TerminalInputRuns`, `TerminalInputService`,
  `TerminalInputWake`): a byte-bounded, coalescing queue with one frame in flight, an
  explicit retry and wake tokens, and what the service makes of it.
- **File paste** (`FilePaste`, `TransferAuthority`, `RemotePaths`, `ShellWords`): staging,
  upload, protection and clean-up under an arbitrary pattern of failures, and the text that
  is typed, read back by the POSIX shell grammar (POSIX.1-2017, Shell Command Language).
- **Manifest renewal** (`ManifestRefresh`, `ManifestMeaning`, `ManifestExample`, `CanonicalJson`,
  `JsonReader`, `TextSplice`): a textual splice that stands for parsing, updating and
  reprinting canonical JSON (RFC 8259), and a reader that shows what any of it means.
- **Browsers** (`BrowserOwner`, `BrowserLastCall`, `BrowserSync`, `BrowserService`,
  `BrowserFocus`, `BrowserCommands`, `BrowserCommandRuns`, `BrowserDeadlines`): a browser
  created later than it is used, state reports that must not get lost, one focus pass over
  a map in any order, and a command table with deferral.
- **Updates** (`Reconcile`, `ReconcileRuns`, `ReconcileAnswers`, `Notifications`,
  `NotificationMirror`, `NotificationBatching`, `NotificationRuns`, `NotificationAnswers`,
  `NotificationReloads`): merging answers that may be stale or repeated.
- **Progress hooks** (`ProgressHooks`, `ProgressInstall`, `ProgressMeaning`): installing and
  uninstalling one hook in somebody else's JSON settings.
- **Selection** (`Selection`, `SelectionRuns`, `SelectionGestures`), **message pump**
  (`PumpSchedule`), **keymap and palette** (`Keymap`, `FuzzyMatch`, `PaletteOrder`).

Objects that the client updates in place are classes whose methods are proved against
step functions; what the steps add up to is proved about runs of those functions. `Common`
and `Text` hold shared types and string functions. `dafny verify dfyconfig.toml` checks
everything.

Where the code and its own comments differ, the model follows the code:

- A new notification replaces unread predecessors whether or not it is itself read; the
  comment at `crates/protocol/src/terminal.rs:222` speaks of both being unread.
- The comment that a foreign ring asks once for a reload until it answers
  (`crates/desktop/src/reconcile.rs:193-196`) overlooks the other callers: start-up, read
  marks and the sidebar refresh too, their answers end the wait, and a full control lane
  leaves the mirror waiting for a request that was never sent. `NotificationReloads` says
  exactly when each happens.
- A refused page update is taken as never made (`crates/desktop/src/browser.rs:1053-1073`);
  if it was applied all the same, returning to the old page leaves the service behind.
- Timestamps in a manifest may use any decimal digits the pattern admits; only ASCII ones
  reprint canonically.
- `serde_json` is built with ordered maps (its lock entry depends on `indexmap`), where
  removing an entry moves the last one into its place; the order statements about settings
  depend on that.

UUIDs, epochs and upload identifiers are distinct numbers; clocks, file systems, the remote
host, the browser engine and the service are parameters or arbitrary fault patterns.

## Model

| member | source | states |
|---|---|---|
| TerminalInput.InputLane.TrySend | crates/desktop/src/pipeline.rs:112-159 | Every way a send can end, by its limits: more than 65536 bytes, over budget, no worker, accepted. A refused or empty send leaves the buffer exactly as it was, also when the bytes had been coalesced into the last frame; an accepted one adds exactly its bytes behind everything queued, in a new frame exactly when the last one is for another pane or would grow too large |
| TerminalInput.InputLane.ReplayRecoverable | crates/desktop/src/pipeline.rs:163-174 | Puts what was kept for a retry before what is queued, once, and reports whether there was anything |
| TerminalInput.InputLane.BeginTerminalInput | crates/desktop/src/pipeline.rs:190-196 | Moves the oldest queued frame in flight and nothing else |
| TerminalInput.InputLane.FinishTerminalInput | crates/desktop/src/pipeline.rs:198-212 | A definitely unsent frame is kept for an explicit retry; any other answer gives its bytes back to the budget |
| TerminalInput.InputLane.DeliverNext | crates/desktop/src/pipeline.rs:234-258 | One turn of the worker: the frame sent is the head of the queue; it is kept for a retry exactly when the answer is a definitely-unsent error, and its bytes leave the budget exactly otherwise |
| TerminalInput.InputLane.Drain | crates/desktop/src/pipeline.rs:233-260 | One wake-up sends every queued frame, in order, and keeps exactly those answered by a definitely-unsent error, in order: none without such an answer, all if each is one |
| TerminalInput.UnqueueUndoesEnqueue | crates/desktop/src/pipeline.rs:123-156 | Rolling a push back restores the queue, whether it was coalesced or not |
| TerminalInput.PushOk | crates/desktop/src/pipeline.rs:120-137 | Accounting survives a push: bytes counted, within capacity, every frame between 1 and 65536 bytes |
| TerminalInputRuns.EnqueueCells | crates/desktop/src/pipeline.rs:124-136 | Coalescing changes frame boundaries only, never a byte, its pane or its order |
| TerminalInputRuns.RunKeeps | crates/desktop/src/pipeline.rs:112-212 | Every run keeps the buffer accounting and the conservation of accepted bytes |
| TerminalInputRuns.ExactlyOnePlace | crates/desktop/src/pipeline.rs:112-212 | In every run each accepted byte is in exactly one of queued, in flight, kept for retry, delivered or indeterminate, once, and nothing that was not accepted is anywhere |
| TerminalInputRuns.SettledForGood | crates/desktop/src/pipeline.rs:198-224 | A delivered or indeterminate byte is never queued, in flight or kept for retry again, however the run goes on: delivery at most once |
| TerminalInputRuns.BudgetKept | crates/desktop/src/pipeline.rs:66-71 | In every run the byte counter is the size of what is pending, within capacity, in frames of 1 to 65536 bytes |
| TerminalInputRuns.AcceptanceOrder | crates/desktop/src/pipeline.rs:161-212 | If retries happen only with nothing in flight, pending bytes stay in the order they were accepted |
| TerminalInputRuns.RetryKeepsOrderIff | crates/desktop/src/pipeline.rs:163-171 | A retry keeps the pending order if and only if nothing is in flight or nothing is kept for retry |
| TerminalInputRuns.FirstInFirstOut | crates/desktop/src/pipeline.rs:190-212 | Without definitely-unsent answers, what left the lane followed by what is in it is exactly what was accepted |
| TerminalInputService.AppliedAtMostOnce | crates/desktop/src/pipeline.rs:198-258 | With a service that applied what it acknowledges and did not apply what it reports unsent: over every run no accepted byte is applied twice, and an applied byte whose call is answered is never waiting to be sent again |
| TerminalInputService.NothingSilentlyLost | crates/desktop/src/pipeline.rs:198-258 | Over every such run an accepted byte that is not waiting any more was acknowledged, and then applied, or its call ended without a certain answer |
| TerminalInputService.ExactlyOnceWhenCertain | crates/desktop/src/pipeline.rs:198-258 | While every call ends with a certain answer, what the service applied and what still waits are exactly what was accepted |
| TerminalInputWake.NoLostWakeup | crates/desktop/src/pipeline.rs:138-157 | With pushing, waking, draining and waiting interleaved freely, a live worker that waits while the queue is not empty has a token pending or a sender about to send one |
| TerminalInputWake.RollbackExactIff | crates/desktop/src/pipeline.rs:140-156 | Were the worker to run between a push and its rollback, a refused send would restore the buffer exactly if and only if the queue is not empty when the rollback takes the lock |
| TerminalInputWake.RefusedByteCanBeKept | crates/desktop/src/pipeline.rs:140-156 | The failing case of that equivalence: a byte reported as refused and yet kept for replay |
| FilePaste.Hosts.StageRemoteSource | crates/desktop/src/image_transfer.rs:146-197 | A staged copy is fresh and holds its source, and there is one exactly if the source exists and every attempt worked; a failure leaves nothing behind, or its own leftover when removing it failed too |
| FilePaste.Hosts.StageRemoteSources | crates/desktop/src/image_transfer.rs:199-218 | All sources staged in order, exactly if there are 1 to 16, all exist and every attempt worked; otherwise, if clean-up works, none |
| FilePaste.Hosts.RemoveStagedSources | crates/desktop/src/image_transfer.rs:609-622 | Tries every file whatever fails; success means exactly these files are gone, and comes whenever they are there and every attempt works |
| FilePaste.Hosts.RemoteCleanup | crates/desktop/src/image_transfer.rs:510-512 | Success, exactly when the one attempt works, removes exactly the named directories; an interrupted removal may have taken or emptied any of them and nothing else |
| FilePaste.Hosts.UploadOne | crates/desktop/src/image_transfer.rs:656-730 | Success exactly if its three attempts work, and then the file is there, protected; only the upload's own remote directory is touched |
| FilePaste.Hosts.UploadAll | crates/desktop/src/image_transfer.rs:656-730 | One protected upload per staged file, in order, exactly if every attempt worked; otherwise a rolled-back host, and the error says whether rolling back worked |
| FilePaste.Hosts.TransferRemote | crates/desktop/src/image_transfer.rs:656-730 | Ok exactly if the destination is good, there are 1 to 16 sources, all exist and every attempt worked; then there is one protected remote file per source, in order, with its content, and no staged file. Err with working clean-up: remote host and staging as before. In every case no user file and no other remote file is touched |
| FilePaste.Hosts.TransferLocal | crates/desktop/src/image_transfer.rs:577-607 | Ok exactly if there are 1 to 16 files, each exists under its resolved name and every inspection worked; then these names are returned, and nothing is ever changed |
| FilePaste.Hosts.ReconcileSourceCleanup | crates/desktop/src/image_transfer.rs:633-654 | Ok exactly when both the transfer and the removal of the client's own file worked; if only the removal failed, the uploads are rolled back; a failed transfer keeps its own error |
| FilePaste.Hosts.CleanupAbortedTransfer | crates/desktop/src/image_transfer.rs:732-745 | Removes the uploads, or the client's own clipboard file, never a user file |
| FilePaste.Hosts.CompleteTransferredPaste | crates/desktop/src/image_transfer.rs:747-771 | Ok exactly if the served snapshot grants the same authority and every attempt worked, and only then the text is typed for good; clean-up runs exactly once if and only if a step fails, and the error names the step |
| FilePaste.Hosts.TypeIfGranted | crates/desktop/src/image_transfer.rs:756-761 | The steps from fetching to writing: none fails exactly if the authority is granted again and every attempt works, and otherwise the first that fails is named |
| FilePaste.Hosts.TransferOwned | crates/desktop/src/image_transfer.rs:855-875 | Upload and removal of the client's own clipboard file together: Ok exactly if both could go through and every attempt worked; an upload whose source stays is rolled back |
| FilePaste.Hosts.PasteRemote | crates/desktop/src/image_transfer.rs:797-926 | The whole transaction under any fault pattern: Ok exactly if the destination is good, 1 to 16 sources all exist, the served snapshot grants the same authority and every attempt worked; then one protected file per source and the text typed once. Err with working clean-up leaves remote host and local files as before but for the client's own clipboard file; user files and other remote files survive always |
| FilePaste.Hosts.PasteLocal | crates/desktop/src/image_transfer.rs:797-926 | Ok under the same kind of condition; for a local pane nothing remote changes, and the client's own file is removed only when the paste is aborted after inspection |
| FilePaste.UploadsAre | crates/desktop/src/image_transfer.rs:656-730 | What "one protected upload per source" means, entry by entry |
| FilePaste.RollbackRestores | crates/desktop/src/image_transfer.rs:624-631 | Removing a transfer's own directories gives back the host as it was |
| TransferAuthority.TransferAuthorityForPane | crates/desktop/src/image_transfer.rs:514-542 | The nested scan decides by the first tab that holds the pane |
| TransferAuthority.RevalidateIff | crates/desktop/src/image_transfer.rs:544-566 | Revalidation accepts exactly the snapshots that would grant the same authority now |
| TransferAuthority.AuthorisedIff | crates/desktop/src/image_transfer.rs:514-542 | A pane is authorised exactly if the first tab that holds it, in display order, has it as a terminal whose transport is the local machine or a named SSH host |
| ShellWords.ShellEscapePath | crates/desktop/src/image_transfer.rs:223-236 | The escape loop is character-wise escaping |
| ShellWords.TypedAsItIsIff | crates/desktop/src/image_transfer.rs:223-236 | A path is typed as it is exactly if all its characters are letters, digits, one of slash, dot, underscore and hyphen, or beyond ASCII |
| ShellWords.JoinedPathsRead | crates/desktop/src/image_transfer.rs:238-244 | What a POSIX shell (POSIX.1-2017 Shell Command Language, sections 2.2.1 and 2.3) reads from the typed text, for every list of paths: the paths without newlines, empty ones dropped |
| ShellWords.JoinedPathsParseBackIff | crates/desktop/src/image_transfer.rs:223-244 | The typed text reads back as the original list if and only if every path is nonempty and free of newlines |
| ShellWords.ShellUnquote | crates/desktop/src/agent_progress.rs:316-334 | The unquoting loop computes its specification |
| ShellWords.UnquoteQuote | crates/desktop/src/agent_progress.rs:311-334 | Unquoting what was quoted gives the text back, for every string |
| ShellWords.QuoteInjective | crates/desktop/src/agent_progress.rs:311-313 | Different texts quote differently |
| ShellWords.UnquoteIsShellWord | crates/desktop/src/agent_progress.rs:316-334 | Whatever text starting with a quote is accepted, the result is the one word a POSIX shell reads (sections 2.2.1 and 2.2.2) |
| ShellWords.QuoteIsOneWord | crates/desktop/src/agent_progress.rs:311-313 | A POSIX shell reads a quoted string as that one word |
| RemotePaths.GeneratedPathAccepted | crates/desktop/src/image_transfer.rs:246-317 | Whatever the local file is called, its generated remote path passes the validators and lies in its own directory |
| RemotePaths.KeepsExtension | crates/desktop/src/image_transfer.rs:246-260 | The remote file keeps the extension of the local one, in lower case, if that is 1 to 10 letters and digits, and is called bin otherwise |
| RemotePaths.AcceptedPathIsOneWord | crates/desktop/src/image_transfer.rs:292-317 | A path the validators accept, in any of the spellings of a UUID, is one unchanged word for the remote shell |
| RemotePaths.AcceptedIff | crates/desktop/src/image_transfer.rs:292-317 | A path is accepted exactly if it is a directory of ours, named by a UUID, and in it a name of 1 to 64 letters, digits, dots and hyphens |
| RemotePaths.CleanupDirectories | crates/desktop/src/image_transfer.rs:410-439 | The directories to remove: refused exactly if there is no path or one that is not ours; otherwise exactly the directories of the paths, once each |
| RemotePaths.GeneratedDirectories | crates/desktop/src/image_transfer.rs:410-439 | Cleaning up after generated uploads names exactly their own directories |
| ManifestRefresh.SpliceIsReprintIff | scripts/prepare-stable-v2-refresh.py:165-187 | A successful renewal writes the canonical printing of the manifest with the two timestamps replaced if and only if both new timestamps are ASCII; the code's own shape test admits other decimal digits |
| ManifestRefresh.RenewOutput | scripts/prepare-stable-v2-refresh.py:178-187 | What a successful renewal writes in any case: the printed source with two values exchanged in place |
| ManifestMeaning.RenewalReadsBack | scripts/prepare-stable-v2-refresh.py:165-187 | Whatever timestamps are accepted, ASCII or not, the renewed text reads back (RFC 8259) as the source manifest with the two timestamps replaced and nothing else changed |
| ManifestRefresh.AcceptedIffUnique | scripts/prepare-stable-v2-refresh.py:117-184 | Exactly when renewal accepts a source that parses to an object: the asked times are one window apart, the text is canonical, its own times are readable and in order, and each stands in the text once, at its own place |
| ManifestExample.WideDigitIsAcceptedAndNotCanonical | scripts/prepare-stable-v2-refresh.py:165-187 | A concrete manifest and a timestamp with one digit beyond ASCII: renewal accepts it and the result is not the canonical printing |
| ManifestRefresh.OnlyTimesChange | scripts/prepare-stable-v2-refresh.py:171-177 | The updated manifest has the same keys in the same order, and differs in the two timestamps only |
| ManifestRefresh.OthersStay | scripts/prepare-stable-v2-refresh.py:185-187 | Replacing one time field neither creates nor destroys an occurrence of the other |
| ManifestRefresh.NoOverlap | scripts/prepare-stable-v2-refresh.py:178-187 | Two time fields cannot overlap in printed text |
| ManifestRefresh.SourceTimeAscii | scripts/prepare-stable-v2-refresh.py:165-184 | If a time field of the source is found at all, its timestamp is ASCII |
| TextSplice.CountOne | scripts/prepare-stable-v2-refresh.py:183-183 | A non-overlapping count of one means one occurrence, overlaps included, unless the pattern overlaps itself |
| TextSplice.ReplaceOnly | scripts/prepare-stable-v2-refresh.py:185-187 | With a single occurrence, replacing all is splicing there |
| CanonicalJson.SplitDumps | scripts/prepare-stable-v2-refresh.py:122-122 | Where a field stands in the canonical printing (RFC 8259, sections 4 and 7; two-space indent) |
| JsonReader.PrintReads | scripts/prepare-stable-v2-refresh.py:122-122 | Every value printed at any depth, whatever text follows, is read back as that value and the text that follows, by a reader of RFC 8259 that knows nothing of the printer |
| JsonReader.DumpsReadsBack | scripts/prepare-stable-v2-refresh.py:115-124 | The canonical file of a manifest reads back as that manifest |
| JsonReader.DumpsInjective | scripts/prepare-stable-v2-refresh.py:122-124 | Different manifests have different canonical files |
| JsonReader.AsciiReads | scripts/prepare-stable-v2-refresh.py:178-181 | A string escaped for ASCII, with surrogate pairs beyond the basic plane, reads back as it was |
| CanonicalJson.CleanEscape | scripts/prepare-stable-v2-refresh.py:122-122 | A Unicode escape in printed JSON text is one the printer wrote for a control character |
| BrowserSync.BrowserPaneView.SyncCallbackState | crates/desktop/src/browser.rs:720-786 | A dirty view decides what is still to be reported against what is in flight or acknowledged |
| BrowserSync.BrowserPaneView.FlushStateUpdate | crates/desktop/src/browser.rs:983-1000 | At most one update is put in flight, and only when none is |
| BrowserSync.BrowserPaneView.CompleteStateUpdate | crates/desktop/src/browser.rs:1021-1084 | An acknowledgement settles the update it answers; a failure puts it back unless something newer is pending |
| BrowserSync.NoUpdateLost | crates/desktop/src/browser.rs:720-1084 | Over every interleaving of callbacks, syncs, flushes, acknowledgements, failures, drops and reopenings, a clean view's page is the newest of pending, in flight and acknowledged; when idle the acknowledged page is the current one |
| BrowserSync.AddressIsLast | crates/desktop/src/browser.rs:720-786 | In every run an open view's address is that of its last callback, and once it is idle that is the address acknowledged |
| BrowserSync.TitleIsLast | crates/desktop/src/browser.rs:720-786 | And its title that of its last callback, or none if that was blank |
| BrowserSync.Converges | crates/desktop/src/browser.rs:720-1084 | From any state one sync and two acknowledged rounds report the current page |
| BrowserSync.AtMostOneCall | crates/desktop/src/browser.rs:983-1084 | Throughout a run at most one call is outstanding, and it is the open view's own, exactly if views open only when no earlier answer is due |
| BrowserSync.TrackKeptIff | crates/desktop/src/browser.rs:1021-1084 | A view loses track of its own outstanding call exactly when an answer to an earlier life is taken for its own: its life is over and its page equals the one in flight |
| BrowserSync.OneCallUnlessMistaken | crates/desktop/src/browser.rs:983-1084 | Over any run of drops and reopenings a life has at most one call out unless such an answer arrives |
| BrowserSync.ReopenedPaneCanHaveTwoCalls | crates/desktop/src/browser.rs:983-1084 | A run with such an answer after which one life has two calls out |
| BrowserService.ServiceIsCurrentIff | crates/desktop/src/browser.rs:720-1084 | With one call at a time, the service shows the current page whenever the view is idle, throughout a run, exactly if the view never syncs back to its acknowledged page while the service holds another |
| BrowserService.HonestRefusalsKeepService | crates/desktop/src/browser.rs:720-1084 | If no refused update was applied, the service is current whenever the view is idle, in every run |
| BrowserService.ServiceCanStayBehind | crates/desktop/src/browser.rs:767-774 | A refused but applied update followed by the old page: the view is idle and the service shows the other page |
| BrowserFocus.BrowserViews.PresentAll | crates/desktop/src/browser.rs:681-705 | In whatever order the map is traversed, exactly the views that must lose focus are blurred, once each |
| BrowserFocus.BrowserViews.SyncPresentation | crates/desktop/src/browser.rs:681-717 | After the pass the only focused view is the visible focused pane; all blurs precede the one focus |
| BrowserFocus.PassSettlesFocus | crates/desktop/src/browser.rs:681-717 | The keyboard ends with the wanted view, or with the application if there is none and a view had it, and the flags agree with it |
| BrowserCommands.CommandTable.ExecuteBrowserCommand | crates/desktop/src/browser.rs:796-902 | Not ready: deferred with the deadline it came with, or answered once that has passed. Ready: a navigation, or a call the browser does not take, is answered at once; a call it takes is awaited under the next id of the view |
| BrowserCommands.CommandTable.PollBrowserCommands | crates/desktop/src/browser.rs:919-961 | Every deferred command is tried again in order, each at its own time, then the collected results are answered |
| BrowserCommands.CommandsInOnePlace | crates/desktop/src/browser.rs:796-961 | In every run each received command is in exactly one of deferred, awaiting DevTools, answered, or lost with its message; LostIff says when the last |
| BrowserCommands.AnsweredAtMostOnce | crates/desktop/src/browser.rs:788-961 | No command is answered twice, and none that was not received |
| BrowserCommands.NoneOverdueAfterPoll | crates/desktop/src/browser.rs:919-961 | After a poll no command whose deadline had passed when it began is still deferred |
| BrowserDeadlines.PollDefers | crates/desktop/src/browser.rs:919-925 | A poll leaves deferred exactly what is neither ready nor due when its turn comes, in order, with the deadlines it had |
| BrowserDeadlines.CollectAnswers | crates/desktop/src/browser.rs:926-961 | Exactly the awaited messages among the results are not awaited any more, and nothing is unanswered again |
| BrowserDeadlines.DeadlineIsReceiptPlusTen | crates/desktop/src/browser.rs:905-917 | Over every run each stored deadline is the moment its command was received, plus ten seconds |
| BrowserDeadlines.WaitEndsWithinTen | crates/desktop/src/browser.rs:796-925 | A poll that begins ten seconds or more after a command was received ends its wait for good, whatever happened before or happens later |
| BrowserDeadlines.WaitLastsTen | crates/desktop/src/browser.rs:805-850 | While its pane never opens and it is tried only earlier than that, a command is still deferred |
| BrowserDeadlines.NeverReadyIsAnswered | crates/desktop/src/browser.rs:805-850 | A command for a pane that never opens is answered by such a poll, once, and stays answered |
| BrowserCommands.NothingLostBeforeWrap | crates/desktop/src/browser.rs:796-902 | One execution on ids that are behind keeps them behind and overwrites nothing |
| BrowserCommandRuns.LostIff | crates/desktop/src/browser.rs:741-961 | In every run exactly the commands whose view was dropped, or whose message id was used again, while they were awaited are lost |
| BrowserCommandRuns.InThreePlacesIff | crates/desktop/src/browser.rs:796-961 | In every run a received command is in exactly one of deferred, awaited and answered, once, if and only if neither happened to it, and never in more than one |
| BrowserCommandRuns.InThreePlacesBeforeWrap | crates/desktop/src/browser.rs:796-961 | While fewer commands are executed than there are message ids, the condition is that its view was not dropped while it was awaited |
| BrowserCommandRuns.OverwrittenCommand | crates/desktop/src/browser.rs:874-886 | A run that uses up the ids: the next command takes the place of the first, which then is nowhere |
| BrowserOwner.BrowserPane.OnAfterCreated | crates/cef-view/src/cef_common.rs:377-419 | On creation everything retained is applied, and a close asked for meanwhile is issued |
| BrowserOwner.BrowserPane.SetBounds | crates/cef-view/src/cef_common.rs:561-575 | Bounds go to a live browser or are retained |
| BrowserOwner.BrowserPane.SetVisible | crates/cef-view/src/cef_common.rs:577-589 | Visibility goes to a live browser or is retained |
| BrowserOwner.BrowserPane.Navigate | crates/cef-view/src/cef_common.rs:591-608 | An address goes to a live browser or is retained |
| BrowserOwner.BrowserPane.SetFocus | crates/cef-view/src/cef_common.rs:626-644 | Focus goes to a live browser or is retained |
| BrowserOwner.BrowserPane.Close | crates/cef-view/src/cef_common.rs:663-680 | A close is remembered, and issued if there is a browser |
| BrowserOwner.DeferredCreationRefinesImmediate | crates/cef-view/src/cef_common.rs:377-419 | For any retained calls before creation and anything at all afterwards the native side ends as if the browser had existed from the start |
| BrowserLastCall.LastCallWins | crates/cef-view/src/cef_common.rs:377-680 | As long as nothing closes it, a browser that exists shows the last address, bounds, visibility and focus it was given, before or after its creation completed, and has gone through the history actions since |
| BrowserLastCall.ClosedIsHidden | crates/cef-view/src/cef_common.rs:663-680 | Once closed it is hidden and the keyboard is with the application, whatever is called afterwards |
| BrowserOwner.HistoryRetainedIff | crates/cef-view/src/cef_common.rs:377-419 | With history actions among the calls it does so if and only if none of them came before creation |
| BrowserOwner.CloseNeverLost | crates/cef-view/src/cef_common.rs:377-443 | In every run a requested close with a live browser has been issued |
| BrowserOwner.NothingAfterClose | crates/cef-view/src/cef_common.rs:561-680 | Once a close is requested it stays requested, and nothing else the browser shows changes |
| BrowserOwner.CloseIsIdempotent | crates/cef-view/src/cef_common.rs:663-680 | Without a shutdown the owner forces at most one close, however often it is asked |
| BrowserOwner.ShutdownRuntime | crates/cef-view/src/cef_common.rs:731-776 | Every pane is asked to close and every live browser has a close issued; the result says whether all were gone when pumping stopped |
| Notifications.Session.SyncNotifications | crates/desktop/src/reconcile.rs:202-241 | The merge of one poll: another ring only starts the wait for a reload; otherwise new deltas are sorted, checked for a gap, pushed one by one and cut to the ring. The mirror counts as changed exactly if some delta is past the cursor |
| Notifications.Session.ReplaceNotifications | crates/desktop/src/reconcile.rs:245-258 | The mirror is then the answer itself: its items in order, its epoch, no wait, and for a cursor the largest of its ids, or zero without any |
| Notifications.Session.MarkPaneSeen | crates/desktop/src/notifications.rs:338-342 | Exactly the pane's items become read, and nothing else about any item changes |
| Notifications.SortStably | crates/desktop/src/reconcile.rs:223-223 | The result is in order of ids, holds the same items, and keeps items of one id in the order they came |
| Notifications.SortSorts | crates/desktop/src/reconcile.rs:223-223 | Sorting orders by id and only reorders |
| Notifications.SortIsStable | crates/desktop/src/reconcile.rs:223-223 | Items with equal ids keep their order |
| Notifications.FindGap | crates/desktop/src/reconcile.rs:224-227 | The scan finds an id off the sequence from the cursor if and only if there is one |
| Notifications.KeptIff | crates/protocol/src/terminal.rs:226-234 | Pushing an item drops exactly the unread items of its pane and kind within five seconds of it, and none if it is a message |
| NotificationAnswers.AnswerIsShown | crates/desktop/src/reconcile.rs:245-258 | Right after an answer is taken, whatever happened before, the mirror holds its items and nothing else and waits for nothing |
| NotificationAnswers.PollLeaves | crates/desktop/src/reconcile.rs:216-236 | A poll of the mirror's ring leaves the last 200 of the old items no new one replaces and the new ones no later one replaces, and its largest new id as the cursor |
| NotificationAnswers.NextIsAccepted | crates/desktop/src/reconcile.rs:202-258 | After an answer the very next id of that ring is accepted: shown last, the cursor on it, and no reload asked for |
| NotificationMirror.AsksIff | crates/desktop/src/reconcile.rs:210-240 | A poll of the mirror's ring asks for a reload exactly when none is awaited and its new ids do not carry every number right after the cursor; a poll of another ring exactly when none is awaited |
| NotificationMirror.FoldLeaves | crates/desktop/src/reconcile.rs:228-232 | Pushing a batch leaves exactly the old items none of it replaces, then its own items no later one replaces, both in order |
| NotificationBatching.BatchingIff | crates/desktop/src/reconcile.rs:216-239 | One poll with two batches in id order against two polls: cursor, epoch and wait always agree; the items agree exactly when nothing the first poll cut would have stayed, or the second leaves a full ring |
| NotificationBatching.BatchingWhenSingle | crates/desktop/src/reconcile.rs:216-241 | If each new item replaces at most one of the items there are when it comes, splitting a batch over two polls changes nothing at all |
| NotificationBatching.BatchingInTimeOrder | crates/desktop/src/reconcile.rs:216-239 | If times do not go back and the mirror is spaced, splitting a batch over two polls changes nothing at all |
| NotificationBatching.ReplacingTwoShows | crates/desktop/src/reconcile.rs:228-236 | A concrete full ring where one item replaces two and the two ways differ |
| NotificationBatching.AtMostOneGoes | crates/protocol/src/terminal.rs:226-234 | In a spaced mirror an item no older than what it meets replaces at most one |
| NotificationRuns.MirrorStaysSound | crates/desktop/src/reconcile.rs:202-258 | In every run ids strictly increase, none is past the cursor, at most 200 are kept, and no unread item could have replaced another |
| NotificationRuns.CursorCovers | crates/desktop/src/reconcile.rs:216-240 | After a poll of the mirror's ring the cursor is past every delta it brought, and never goes back |
| NotificationRuns.RedeliveryIgnored | crates/desktop/src/reconcile.rs:216-223 | A batch delivered again, any number of polls later, changes nothing |
| NotificationRuns.ForeignChangesNothing | crates/desktop/src/reconcile.rs:210-215 | Any number of polls of other rings leave items, cursor and epoch alone and ask for one reload at most |
| NotificationReloads.LaneIsUnanswered | crates/desktop/src/pipeline.rs:265-290 | The reload requests under way are the newest ones issued, in order: as many are missing as were answered |
| NotificationReloads.StillQueuedIff | crates/desktop/src/pipeline.rs:265-290 | A request is unanswered exactly while no more answers have come than it had requests ahead of it |
| NotificationReloads.WaitsIff | crates/desktop/src/reconcile.rs:202-258 | In every run, whoever refreshes: the mirror waits exactly if no answer has come since a poll last asked |
| NotificationReloads.AsksOverOwnIff | crates/desktop/src/notifications.rs:274-298 | After any run a poll asks while a poll's earlier request is unanswered exactly when it wants a reload and such a request was overtaken: a request ahead of it was answered since, and no poll asked after that |
| NotificationReloads.OvertakenByCount | crates/desktop/src/notifications.rs:274-298 | An overtaken request had others ahead of it, and between one and all of them have been answered |
| NotificationReloads.OneReloadIff | crates/desktop/src/reconcile.rs:210-240 | Polls have at most one request outstanding throughout a run exactly if none asks over its own |
| NotificationReloads.SeveralOutstandingIff | crates/desktop/src/notifications.rs:274-298 | More than one request is outstanding exactly if one was queued while an earlier one still has no answer |
| NotificationReloads.StartUpCanDoubleAsk | crates/desktop/src/main.rs:609-610 | A run from start-up on: the answer to the start-up refresh ends the wait of a poll whose own request is still out, and the next poll that misses an id has two requests of polls outstanding |
| NotificationReloads.BecomesStuckIff | crates/desktop/src/notifications.rs:274-298 | The mirror comes to wait for nothing exactly when a poll asks while the control lane is full and no reload is outstanding, since the refused request is not noticed |
| NotificationReloads.StuckForGood | crates/desktop/src/reconcile.rs:210-240 | From there no poll ever asks again; only another caller's refresh ends it |
| Reconcile.DesktopState.TakeSnapshot | crates/desktop/src/reconcile.rs:73-134 | What a taken snapshot does to the active workspace, zoom, focus and dismissed tabs |
| Reconcile.DesktopState.MergeScreens | crates/desktop/src/reconcile.rs:135-145 | Only strictly newer screens replace, each stamped with its delivery |
| Reconcile.DesktopState.PruneTo | crates/desktop/src/reconcile.rs:146-165 | Screens, deliveries, split ratios (both ends) and zoom levels keep live panes only; pane states become the answer's |
| Reconcile.DesktopState.ReconcileUpdates | crates/desktop/src/reconcile.rs:51-182 | The whole merge and the side effects it asks for: a snapshot no older than the one held is taken, an older one leaves the view alone |
| ReconcileRuns.MergedIsNewest | crates/desktop/src/reconcile.rs:135-145 | Each pane ends with a screen it had or was sent, and no candidate is newer |
| ReconcileRuns.MergeOrderIrrelevant | crates/desktop/src/reconcile.rs:135-145 | If equal revisions mean equal screens, the order of arrival does not show |
| ReconcileRuns.SnapshotNeverOlder | crates/desktop/src/reconcile.rs:68-76 | In every run the session revision never goes back |
| ReconcileAnswers.AnswerTaken | crates/desktop/src/reconcile.rs:68-76 | A snapshot that is no older replaces the one held, an older one or none leaves the whole view alone; pane states are replaced exactly by answers whose own revision is no older |
| ReconcileAnswers.ShownReachesAll | crates/desktop/src/reconcile.rs:68-76 | In every run the snapshot shown is no older than any that came in |
| ReconcileAnswers.ShownIsLatestOfNewest | crates/desktop/src/reconcile.rs:68-134 | In every run the snapshot shown is the latest delivered among the newest, or the one from the start if all that came in is older |
| ReconcileAnswers.ActiveIs | crates/desktop/src/reconcile.rs:77-87 | The active workspace stays exactly if the snapshot still has it and it may be shown; otherwise it is the first workstation that may be shown, or none if there is none |
| ReconcileAnswers.ShownTabsAre | crates/desktop/src/reconcile.rs:88-97 | The tabs shown are those of the first workspace with the active id |
| ReconcileAnswers.DismissedIff | crates/desktop/src/reconcile.rs:125-132 | A dismissed tab stays dismissed exactly while the session has it |
| ReconcileAnswers.SnapshotSettlesFocus | crates/desktop/src/reconcile.rs:98-124 | The zoomed pane stays exactly while it is visible; the focused pane stays while it is visible, its tab is asked back if one of those shown has it, else the first visible pane is asked for, and with none the focus is gone |
| ReconcileAnswers.MergedIsFirst | crates/desktop/src/reconcile.rs:135-145 | Among screens of one pane with the newest revision the first to come is shown |
| ReconcileAnswers.StampedIff | crates/desktop/src/reconcile.rs:135-145 | The delivery time of a pane is set to this delivery exactly when its screen changed |
| ReconcileAnswers.StatesAreLast | crates/desktop/src/reconcile.rs:161-164 | The state of a pane is the last one listed for it |
| ReconcileAnswers.RepaintsIff | crates/desktop/src/reconcile.rs:166-181 | The desktop is painted again exactly when the snapshot or a screen changed, an error went away, or the notification cursor moved |
| ReconcileRuns.StaleKeepsTopology | crates/desktop/src/reconcile.rs:68-72 | A stale answer leaves pane states, ratios and zoom levels alone and loses no screen |
| ReconcileRuns.CurrentPrunes | crates/desktop/src/reconcile.rs:146-165 | A current answer leaves only its live panes in every pruned map, and each of them untouched by the pruning |
| ReconcileRuns.LiveScreenIsMerge | crates/desktop/src/reconcile.rs:135-165 | While a pane stays live, its screen after a run is one merge of everything that came for it |
| ReconcileRuns.LiveScreenNeverOlder | crates/desktop/src/reconcile.rs:135-165 | A live pane's screen revision never decreases over a run |
| ReconcileRuns.RunOrderIrrelevant | crates/desktop/src/reconcile.rs:135-165 | Two runs that bring the same screens in any order and grouping show the same one for a live pane |
| ReconcileRuns.SnapshotSettlesView | crates/desktop/src/reconcile.rs:77-132 | After a snapshot the active workspace can be shown and a fallback is no bot; the focus is visible, asked back, moved to a visible pane, or gone because nothing is visible |
| ReconcileRuns.RedeliveryIsNothing | crates/desktop/src/reconcile.rs:51-182 | Delivering the same answer again directly after the first time leaves the same state, whenever that is |
| ReconcileRuns.RedeliveryRepaintsIff | crates/desktop/src/reconcile.rs:176-180 | The second delivery asks for a repaint exactly when the answer is current and carries a screen of a pane it does not list |
| ProgressHooks.HookState | crates/desktop/src/agent_progress.rs:342-362 | The scan finds Installed exactly when some group has a current hook of ours, else Outdated exactly when it has any |
| ProgressHooks.Settings.AddHook | crates/desktop/src/agent_progress.rs:364-383 | Appends our group, creating what is missing; an error leaves the tree unchanged |
| ProgressHooks.Settings.RetainGroups | crates/desktop/src/agent_progress.rs:398-410 | Shrinks groups, drops those it emptied, and reports whether any hook was ours |
| ProgressHooks.Settings.RemoveHook | crates/desktop/src/agent_progress.rs:387-415 | Removal in place; an error, or nothing of ours, leaves the tree unchanged |
| ProgressHooks.SettingsFile.InstallAt | crates/desktop/src/agent_progress.rs:167-197 | Writes only when needed and only the finished tree; an error leaves the file alone |
| ProgressHooks.SettingsFile.UninstallAt | crates/desktop/src/agent_progress.rs:199-221 | Writes only when something was removed |
| ProgressInstall.AliasRecognised | crates/desktop/src/agent_progress.rs:272-308 | A hook that quotes any path resolving to our program is recognised as running it |
| ProgressInstall.AddedIsInstalled | crates/desktop/src/agent_progress.rs:342-383 | A tree with the hook added is found Installed |
| ProgressInstall.RemovalAdmitsAdding | crates/desktop/src/agent_progress.rs:364-415 | Once removal went through on an object root, adding cannot fail |
| ProgressInstall.InstallFailsIff | crates/desktop/src/agent_progress.rs:167-191 | Installing fails exactly on a tree of the wrong shape or an unwritable file |
| ProgressInstall.InstallLeaves | crates/desktop/src/agent_progress.rs:180-188 | A written install leaves the old groups without our hooks, then ours, once |
| ProgressInstall.InstallTwice | crates/desktop/src/agent_progress.rs:167-191 | After an install the state is Installed and a second install changes nothing |
| ProgressInstall.RemovedIsNotInstalled | crates/desktop/src/agent_progress.rs:387-415 | After a removal none of our hooks is left |
| ProgressInstall.UninstallLeavesNone | crates/desktop/src/agent_progress.rs:199-221 | After an uninstall none of our hooks is left |
| ProgressInstall.OthersConserved | crates/desktop/src/agent_progress.rs:364-415 | Neither installing nor uninstalling loses, adds or reorders anybody else's hook or changes its matcher |
| ProgressMeaning.OursIff | crates/desktop/src/agent_progress.rs:291-296 | A hook is ours exactly if it has a command that ends in our words for the agent, but for blanks |
| ProgressMeaning.InstalledIff | crates/desktop/src/agent_progress.rs:272-362 | The settings count as installed exactly if some hook stands under the agent's own matcher and calls, quoted for a shell, a path that resolves to our program; as not installed exactly if no command ends in our words |
| ProgressMeaning.InstallErrorIs | crates/desktop/src/agent_progress.rs:364-415 | The error of an install that has something to do names the first place of the tree that has the wrong shape, or else that the file could not be written |
| ProgressMeaning.ForeignersStay | crates/desktop/src/agent_progress.rs:364-415 | Installing and uninstalling leave every hook whose command does not end in our words where it stood, under its matcher, and bring none in |
| ProgressInstall.OtherSettingsUntouched | crates/desktop/src/agent_progress.rs:364-415 | Every setting beside hooks keeps value and place |
| ProgressInstall.OtherEventsKept | crates/desktop/src/agent_progress.rs:167-221 | Neither installing nor uninstalling changes what is configured for any other event |
| ProgressInstall.EventOrderKeptIff | crates/desktop/src/agent_progress.rs:167-221 | Uninstalling keeps the order of the other events exactly unless it empties a list that is not among the last two entries; installing likewise, where an installed hook is left alone |
| ProgressInstall.UninstallReorders | crates/desktop/src/agent_progress.rs:411-413 | A tree of three events that uninstalling reorders |
| ProgressInstall.GroupsStayInstalled | crates/desktop/src/agent_progress.rs:398-410 | Every group that holds somebody else's hook, or none of ours, stays in order with all its other settings |
| ProgressInstall.UninstallRestoresIff | crates/desktop/src/agent_progress.rs:167-221 | Uninstall after install gives back the very tree exactly when it had a hooks object without ours and the list was absent or not empty |
| ProgressInstall.UninstallAfterFirstInstall | crates/desktop/src/agent_progress.rs:167-221 | From no file, an empty hooks object stays behind |
| ProgressInstall.RemovalKeepsOrderIff | crates/desktop/src/agent_progress.rs:411-413 | Taking an entry out of an object keeps all others, and their order exactly when it was one of the last two |
| Selection.Pointer.BeginTerminalPointer | crates/desktop/src/panes.rs:727-809 | A press reports, defers, begins a selection or is ignored |
| Selection.Pointer.MoveTerminalPointer | crates/desktop/src/panes.rs:811-866 | A drag off the anchor turns a deferred press into a selection |
| Selection.Pointer.DragTerminalSelection | crates/desktop/src/panes.rs:868-960 | Dragging past an edge extends or starts scrolling, with one new timer loop when none owned it |
| Selection.Pointer.TickSelectionAutoscroll | crates/desktop/src/panes.rs:962-988 | A tick scrolls and extends, or says the loop is over |
| Selection.Pointer.EndTerminalPointer | crates/desktop/src/panes.rs:1040-1110 | A release ends the gesture as click, cleared selection or last extension |
| Selection.Pointer.EndTerminalSelectionOutside | crates/desktop/src/panes.rs:990-1028 | A release outside the grid ends the gesture |
| Selection.Pointer.Cancel | crates/desktop/src/input.rs:695-702 | Escape ends the gesture without a request |
| SelectionRuns.EveryGestureIsProper | crates/desktop/src/panes.rs:761-1110 | In every run each gesture reaches the service as nothing, as one press and release of one button, or as one selection on one pane: begun once and first, then only extended, cleared at most once and last; never a mixture |
| SelectionRuns.UpdateOnlyAfterBegin | crates/desktop/src/panes.rs:825-987 | No selection is extended that the same gesture had not begun on the same pane |
| SelectionRuns.AutoscrollIsOwned | crates/desktop/src/panes.rs:906-987 | While scrolling is set, a started selection is dragged on that pane and exactly one live timer loop has the current generation |
| SelectionRuns.OnlyOneLoopScrolls | crates/desktop/src/panes.rs:943-988 | Only that loop ever sends; any other ends at its next tick |
| SelectionRuns.DeferredEndsAsClickIff | crates/desktop/src/panes.rs:1051-1074 | A deferred press ends as its click exactly when the released button has a terminal name |
| SelectionGestures.WholeGesture | crates/desktop/src/panes.rs:727-1110 | Everything a gesture with the left button sends, from the press over any number of moves to the release: a click for a program that listens to the mouse unless the pointer left the anchor; otherwise a selection of the kind the press asked for, begun at the anchor, extended by every move, and at the release extended or, back on the anchor, cleared unless it is by words or lines |
| SelectionGestures.ScrollsTowardsPointer | crates/desktop/src/panes.rs:931-988 | Dragged past the top edge a tick scrolls up, past the bottom edge down, at the speed of the distance, and then extends the selection to that edge |
| SelectionGestures.StopsScrolling | crates/desktop/src/panes.rs:895-930 | Back over the grid or over a listening program scrolling ends; past a side edge only, the selection follows at once |
| SelectionGestures.OtherButtons | crates/desktop/src/panes.rs:742-809 | Other buttons never touch a gesture; their press is passed on exactly if the program listens to the mouse, shift does not hold it back and the terminal has a name for the button |
| PumpSchedule.Schedule.Request | crates/cef-view/src/cef_macos.rs:39-49 | A deadline is accepted exactly when it is earlier than the pending one |
| PumpSchedule.Schedule.Claim | crates/cef-view/src/cef_macos.rs:51-61 | A claim succeeds exactly for the pending deadline, and clears it |
| PumpSchedule.PendingIsEarliest | crates/cef-view/src/cef_macos.rs:38-61 | Over all interleavings the pending deadline is the least of all asked for since the last successful claim |
| PumpSchedule.PendingHasCallback | crates/cef-view/src/cef_macos.rs:178-197 | A pending deadline has a callback queued or about to be, and is at most 33 ms away |
| PumpSchedule.ClaimedAtMostOnce | crates/cef-view/src/cef_macos.rs:51-61 | Claims and live callbacks of a deadline never outnumber its acceptances |
| PumpSchedule.PumpNeverRunsDry | crates/cef-view/src/cef_macos.rs:178-197 | While the runtime is up, the main thread is at it or a deadline with a callback is pending |
| PumpSchedule.PendingAfterPump | crates/cef-view/src/cef_macos.rs:191-195 | After the turn that follows a pump a deadline is pending, whatever was asked meanwhile |
| PumpSchedule.OnlyEarliestPumps | crates/cef-view/src/cef_macos.rs:187-195 | A callback pumps exactly when it holds the earliest deadline asked for since the last claim |
| PumpSchedule.AskedIs | crates/cef-view/src/cef_macos.rs:178-197 | Each request asks for its own delay from now, at least 0 and at most 33 ms; a claim of the due, pending deadline takes all of them off, and nothing else counts |
| PumpSchedule.OwesAfter | crates/cef-view/src/cef_macos.rs:178-197 | A pump is owed at once when the runtime comes up, and within 33 ms after each pump |
| Keymap.ResolveKeymap | crates/desktop/src/commands.rs:309-368 | Resolution succeeds exactly when every configured action is known, every sequence normalises and no two are the same; then bindings are the wanted sequences in order, and the prefixes exactly the ascending set of nonempty proper stroke prefixes that are not bindings; an error names something that is wrong |
| Keymap.BindAll | crates/desktop/src/commands.rs:319-346 | The two nested loops with their occupied table |
| Keymap.WishedIff | crates/desktop/src/commands.rs:319-330 | A sequence is to be bound to a command exactly if its action is configured with it, or is not configured and has it among its defaults |
| Keymap.ChordPrefixes | crates/desktop/src/commands.rs:348-367 | The prefix loops compute exactly that set, in ascending order |
| Keymap.AnswersArePrefixClosed | crates/desktop/src/commands.rs:353-362 | Bindings and prefixes together are closed under taking prefixes |
| Keymap.HeldBackLeadsSomewhere | crates/desktop/src/commands.rs:353-362 | Every held-back prefix is a proper prefix of some binding |
| Keymap.SplitJoined | crates/desktop/src/commands.rs:371-377 | Strokes joined with blanks split into the same strokes |
| Keymap.NormalizeKeepsStrokes | crates/desktop/src/commands.rs:371-386 | Normalising keeps the strokes, is idempotent, and succeeds exactly if there are strokes and all parse |
| Keymap.NormalizedSameIff | crates/desktop/src/commands.rs:371-386 | Two sequences are the same binding exactly when their strokes are the same |
| FuzzyMatch.FuzzyScore | crates/desktop/src/commands.rs:424-457 | The scan answers exactly when the needle is nonempty and its letters can be placed in order, with the score of the leftmost placement |
| FuzzyMatch.SubsequenceIff | crates/desktop/src/commands.rs:431-455 | Greedy scanning finds a placement exactly when one exists |
| FuzzyMatch.LeftmostIsFirst | crates/desktop/src/commands.rs:431-455 | The greedy placement is no later than any other, letter by letter |
| FuzzyMatch.AdjacentIff | crates/desktop/src/commands.rs:435-438 | The adjacency bonus is earned exactly by neighbouring letters the first of which is one byte long |
| FuzzyMatch.PaletteMatches | crates/desktop/src/commands.rs:394-422 | The chain of filtering, ranking and cutting |
| FuzzyMatch.OfferedIff | crates/desktop/src/commands.rs:399-409 | A command is offered exactly when its title or id holds the query's letters in order |
| FuzzyMatch.AllFoundWhenBlank | crates/desktop/src/commands.rs:400-401 | A blank query offers every command, in table order |
| FuzzyMatch.ShownAreBest | crates/desktop/src/commands.rs:412-421 | What is shown is in rank order, and nothing left out ranks before anything shown |
| PaletteOrder.BetterFirst | crates/desktop/src/commands.rs:412-421 | What is shown has higher scores first and equal scores by title, compared character by character, and nothing left out is better than anything shown |
| PaletteOrder.TiesKeepOrder | crates/desktop/src/commands.rs:412-420 | Matches with the same score and title stay in table order |
| PaletteOrder.WorthOf | crates/desktop/src/commands.rs:431-447 | A letter right after the previous one is worth 8 more, at the start of a word 6 more, and a later one never more than an earlier one alike |
| PaletteOrder.TitleDecides | crates/desktop/src/commands.rs:399-409 | The score is that of the title wherever it matches, and of the id only where it does not |
| PaletteOrder.ExactMatchGains | crates/desktop/src/commands.rs:449-453 | A text that is the query itself scores 20 over its letters taken one by one |

## Left out

- Signature and digest checks, the fixed-field checks of a manifest and calendar arithmetic: assumed, or parameters of the renewal.
- External navigation and echo detection in `crates/desktop/src/browser.rs:662-676`: they depend on timing across connections.
- NotificationRuns.MirrorStaysSound: trusts the service for distinct ids within a poll and for reloads that are rings themselves; two equal ids in one poll would both be kept.
- BrowserService.ServiceIsCurrentIff: one life of one view with one call out at a time; reopening is in BrowserSync.
- NotificationBatching.BatchingIff: ids of the two batches increase, as the service sends them; a delta older than the cursor is dropped by the second poll and not by the single one.
- ReconcileRuns.LiveScreenNeverOlder: over runs of the merge only; targeted pane snapshots (`crates/desktop/src/session.rs:376-391`) overwrite a screen without comparing revisions.
- ReconcileRuns.RedeliveryIsNothing: assumes an answer does not report a session older than the snapshot it carries; with other answers in between, an old one may bring back the screen of a pruned pane until the next current answer.
- SelectionRuns.EveryGestureIsProper: requests are recorded when they are handed over; a full control lane may still drop one.
- Widths of machine integers: revisions, ids, generations and scores do not wrap here; scores subtract offsets without the 32-bit limit.
- Image pastes offered to the application in-band as paste events: the transaction starts where files are transferred.
- FilePaste.Hosts.PasteRemote: what remains after a clean-up step itself fails is bounded (only the transfer's own files and directories), not listed.
- ProgressInstall.RemovedGroups: objects have no repeated keys, as every parsed settings file.
- Opening links on click, image menus, focus and scrolling side effects of the pointer handlers: no state of the gesture.
- The geometry that turns pixels into grid points and scroll speed: a reading is an input of the gesture model.
- Fine-grained races between sending and the terminal input worker: both run on one thread; the interleaved model beside the lane says what they would do.
- JsonReader.DumpsReadsBack: number literals are runs of the characters numbers are made of; their grammar and the merging of repeated keys are not modelled.
- What a browser command is answered with: only that it is answered, and when.
- Blanks of locales other than POSIX in the shell grammar.
- Case mapping, alphanumeric tests, keystroke parsing and path resolution: parameters.
- Files that are not valid JSON, symbolic links and atomic replacement of settings files: reading gives a tree or none, writing works or does not.
- The bundled omp extension file and its fingerprint: a three-way comparison with no state.
- Favicons, loading flags and pop-up requests of browser views: they only mark the view dirty.
- PTY resizing, rendering, menus, dialogs and the release policy scripts: no protocol state.
