# Verified model of the HPC client's transfer, plugin and text cores

Dafny models of the parts of the desktop client that must not lose or mix up data, with proofs
about every input, every run and every interleaving. `dafny verify dfyconfig.toml` checks the
whole project.

What it covers, one module (or a few) per part of the program:

- **Text conversion** (`Utf8`, `Lines`, `Stream`): UTF-8 as RFC 3629 defines it, line-ending
  conversion of whole files, and the chunked conversion with its two carried pieces of state. The
  main result is that the stream equals the whole file for every chunking.
- **Resumable transfers** (`Resume`, `IdentityTexts`, `TransferProtocol`, `FtpLabels`,
  `ModeChange`): the `.part` and `.part.meta` files as a transition system in which every file
  change is a step and a crash may follow each of them, and the upload and download procedures as
  methods whose executions are runs of that system; the labels, uploads over FTP, and retries in
  the other mode.
- **The transfer queue** (`TransferQueue`, `RetryRounds`, `TransferController`): the scheduling
  loop, its workers and other threads as a transition system; the controller object with its
  loop, other threads acting between any two of its steps; and rounds of run, cancel and retry.
- **Plugins** (`Integrity`, `PluginStore`): verification of a version directory, trust anchors,
  active pointers, install with rollback, activation, removal and loading, under arbitrary
  tampering with the files of the packages.
- **Self-contained algorithms**: the in-memory file tree (`FileTree`, `MockPaths`), the lint
  matcher (`Lint`), the terminal sanitizer (`TerminalText`), synchronized browsing (`PathMapping`),
  the AppImage swap (`AppImageUpdate`), and two history stores (`CommandHistory`,
  `NavigationHistory`).

`Wrappers`, `Seqs` and `Blanks` hold shared helpers. A field marked `ghost` in a class records
something the program does not store, such as the run so far or the number of failed operations.

Properties one might expect that the code does not have, each with what holds instead:

- The identity that labels a partial upload leaves out the transfer mode, so a retry in the other
  mode can continue the wrong bytes. With `n` bytes left over, it does so exactly when a CR is among
  the first `n` bytes of the file, and for an ASCII retry `n` is not more than its payload
  (`ModeChange`).
- Over FTP the label is written through the resuming upload. It becomes another identity exactly
  under the condition of `FtpLabelConfuses`, which for labels written in full is an identity of
  equal length (`FtpClashIsEqualLength`); then the promise can be broken at once
  (`ClashBreaksPromise`), and all other runs are safe (`FtpNeverAMix`).
- A stop without a cancel makes the scheduling loop spin exactly if a transfer is still ahead
  (`StopNeverLeaves`, `StoppedQueueEnds`).
- Of the items that `enqueue` accepts, exactly those are run that were appended before the loop's
  last look (`EndedByLastLook`, `LateItemsStayPending`).
- Verification of a plugin does not see undeclared files below linked directories
  (`StraysAreNotSeen`); everything else is pinned down (`SameAnchorSameFiles`).
- An install or activation whose restoring write fails without effect leaves the new pointer in place (`Cut(true)`
  in `PluginStore`).
- A failed AppImage update restores an older leftover backup if it strikes before that is removed
  (`InstallAppImage`).
- In the mock tree a path can become both a file and a directory (`WriteOverDirectory`), and moving
  it is then inexact (`Move`). Paths that start with two slashes, or that copying to the root
  composes, make the loop over parent directories run forever (`ParentLoopEndsExactly`,
  `ImageByText`).
- Path mapping does not come back when a mapped path ends in a blank (`LocalRoundTrip`,
  `RemoteRoundTrip`, `BlankIsLost`).
- A command history whose file could not be removed or written no longer agrees with it (`synced`).
- The loader's comment says that a malformed lint pack does not invalidate a plugin
  (src/hpc_gui/plugins/loader.py:231-232); the code that follows skips the plugin, and the model
  follows the code.

Nothing of the program has been executed; everything stated here is about the model.

## Model

| member | source | states |
|---|---|---|
| Utf8.DecodesExactlyTheGrammar | src/hpc_gui/services/transfer_mode.py:94-108 | the strict decoder accepts exactly the octet strings of the ABNF in section 4 of RFC 3629 |
| Utf8.DecodeInvertsEncode | src/hpc_gui/services/transfer_mode.py:94-108 | a byte string decodes to a text exactly when it is that text's encoding (section 3 of RFC 3629) |
| Utf8.DecodeAppend | src/hpc_gui/services/transfer_mode.py:139-145 | a valid prefix is decoded on its own, whatever bytes follow it |
| Utf8.ErrorExtent | src/hpc_gui/services/transfer_mode.py:141-145 | on an error, everything before `start` is valid text and `start..end` is the piece blamed when the rest is decoded alone |
| Lines.OnePassConverts | src/hpc_gui/services/transfer_mode.py:107-108 | the three successive replacements of CRLF, CR and LF equal a single left-to-right pass over line terminators |
| Lines.NormalizedIsOnePass | src/hpc_gui/services/transfer_mode.py:99-99 | the two replacements of an upload equal that pass with LF |
| Lines.ConvertedAppend | src/hpc_gui/services/transfer_mode.py:148-185 | conversion may be cut anywhere except between a CR and its LF |
| Lines.LocalAfterLocal | src/hpc_gui/services/transfer_mode.py:102-108 | converting for one separator and then for another equals converting for the second only, refusals included |
| Lines.RoundTrips | src/hpc_gui/services/transfer_mode.py:94-108 | local then remote, remote then local, and each twice: all four composites lose nothing more than one conversion, for every byte string and either separator |
| Stream.CarrySplitParts | src/hpc_gui/services/transfer_mode.py:132-145 | an accepted split is finished valid text followed by at most three carried bytes that could start a code point |
| Stream.CarrySplitGoesOn | src/hpc_gui/services/transfer_mode.py:132-145 | the text of an accepted split stands whatever bytes follow, and the rest decodes as carry plus continuation |
| Stream.CarrySplitRefuses | src/hpc_gui/services/transfer_mode.py:111-145 | a refused split dooms every continuation, so refusing early never refuses a valid file |
| Stream.NextAfterCarry | src/hpc_gui/services/transfer_mode.py:111-129 | after carried bytes the next character is never a line terminator; leads C0, C1 and F5 to F7 are carried too and refused later |
| Stream.BeginningsArePrefixes | src/hpc_gui/services/transfer_mode.py:111-129 | every beginning of the bytes of every character is a prefix, all of them included |
| Stream.FlushNormalizedLines | src/hpc_gui/services/transfer_mode.py:148-185 | writes the one-pass conversion of the held-back CR and the text up to its last CR, and holds that CR back |
| Stream.WriteStep | src/hpc_gui/services/transfer_mode.py:204-206 | letting a pending CR go on an empty chunk of text is right, because bytes are then carried and the next character cannot be LF |
| Stream.StreamUtf8Lines | src/hpc_gui/services/transfer_mode.py:188-211 | for every cutting of a file into non-empty chunks: succeeds exactly on valid UTF-8 and then writes exactly the whole-file conversion (the loop keeps the carry at three bytes at most) |
| Resume.ResumeExact | src/hpc_gui/services/files_ssh.py:212-241 | the size-based resume delivers the source exactly when the leftover is absent, longer, or a prefix of it |
| Resume.ClosingIsUnique | src/hpc_gui/services/transfer_mode.py:314-324 | a torn label, a proper prefix of an identity text, is never itself an identity text |
| Resume.IdentityIsText | src/hpc_gui/services/transfer_mode.py:229-229 | what `json.dumps` writes for an identity, with the path escaped and the numbers rendered, is one closed object, for every path, time and size |
| Resume.EscapeIsQuoted | src/hpc_gui/services/transfer_mode.py:229-229 | the escaped form of every path stays inside its string literal |
| IdentityTexts.IdentityDetermines | src/hpc_gui/services/transfer_mode.py:229-236 | two identities have the same text exactly if they agree in clock, time, path and size: no two versions of a source share a label |
| IdentityTexts.DecimalInjective | src/hpc_gui/services/transfer_mode.py:229-229 | the decimal text of a number determines it |
| IdentityTexts.DigitsDenote | src/hpc_gui/services/transfer_mode.py:229-229 | read in base ten, the digits give the number back |
| IdentityTexts.EscapeInjective | src/hpc_gui/services/transfer_mode.py:229-229 | the escaped form of a path determines it |
| IdentityTexts.IdentityReads | src/hpc_gui/services/transfer_mode.py:229-229 | the text of an identity, spelled out |
| IdentityTexts.ContentsByLabel | src/hpc_gui/services/transfer_mode.py:317-323 | whatever every version of every source contains, the contents can be read off the labels, as the protocol supposes |
| TransferProtocol.StepKeepsInv | src/hpc_gui/services/transfer_mode.py:214-245 | every single step, crash and failure keeps: a part under an identity's label is a prefix of that identity's content |
| TransferProtocol.StepKeepsDest | src/hpc_gui/services/transfer_mode.py:335-348 | the destination changes only by publishing, and then to the whole (converted) content of the attempt |
| TransferProtocol.NeverAMix | src/hpc_gui/services/transfer_mode.py:214-245 | over all sequences of attempts with crashes anywhere, torn labels and source changes in between: a labelled part is a prefix of what its label names, and the destination is its old content or all of some attempt's, never a mix |
| TransferProtocol.ModeIsNotInTheIdentity | src/hpc_gui/services/transfer_mode.py:270-282 | an instance: the identity omits the transfer mode, so an ASCII retry after a binary leftover can deliver neither file |
| ModeChange.AsciiAfterBinary | src/hpc_gui/services/transfer_mode.py:229-240 | an ASCII retry over a binary leftover of `n` bytes delivers its payload exactly when no CR is among them or they are more than the payload |
| ModeChange.BinaryAfterAscii | src/hpc_gui/services/transfer_mode.py:229-240 | a binary retry over an ASCII leftover of `n` bytes delivers the file exactly when no CR is among the first `n` bytes of the file |
| FtpLabels.FtpLabelExact | src/hpc_gui/services/files_ftp.py:200-210 | over FTP the label itself goes through the resuming upload: on top of another label it ends up right exactly when that is absent, longer, or the same |
| FtpLabels.FtpLabelConfuses | src/hpc_gui/services/files_ftp.py:200-210 | on top of any text, torn ones included, the label becomes another identity exactly when that text is not longer, no beginning of the label, and its continuation an identity |
| FtpLabels.IdentityConfuses | src/hpc_gui/services/files_ftp.py:200-210 | on top of an identity: exactly when that has equal length and is another one; a shorter one gives a mixture that is no identity, which is harmless |
| FtpLabels.FullLabelConfuses | src/hpc_gui/services/files_ftp.py:200-210 | the same on top of any text that begins with an identity, as all labels do that were written in full |
| FtpLabels.LabelledKeepsInv | src/hpc_gui/services/files_ftp.py:261-287 | writing a label keeps the invariant of the protocol exactly if it does not make it another identity |
| FtpLabels.FtpNeverAMix | src/hpc_gui/services/files_ftp.py:261-287 | with the label write of FTP as a step: over every run in which no label is written on top of one that it turns into another identity, a labelled part is a prefix of what its label names and the destination is never a mix |
| FtpLabels.FtpClashIsEqualLength | src/hpc_gui/services/files_ftp.py:200-210 | if no label write is cut short, the excluded event is exactly a label written over a different identity of equal length |
| FtpLabels.FtpLabelBreaksResume | src/hpc_gui/services/files_ftp.py:261-287 | what such a clash leads to: a cut-short attempt leaves its bytes under the other's label, and the next retry delivers wrong content if the sources differ in them |
| FtpLabels.ClashBreaksPromise | src/hpc_gui/services/files_ftp.py:261-287 | from every state about to write such a label, torn ones included, a run of three steps ends with a part that is not what its label names, unless the one content is a beginning of the other |
| FtpLabels.FtpSourcesExist | src/hpc_gui/services/files_ftp.py:261-287 | for every path there are two versions of a file with labels of equal length and contents of the stated size that differ at once |
| FtpLabels.TornLabelConfuses | src/hpc_gui/services/files_ftp.py:261-287 | for every path: a label cut in the middle of its time and continued as the next one is the label of a third time |
| TransferProtocol.Site.KeepOrDiscard | src/hpc_gui/services/transfer_mode.py:230-236 | the leftover part survives, unchanged, exactly if its label reads as this identity; an unreadable label counts as a mismatch |
| TransferProtocol.Site.WriteLabel | src/hpc_gui/services/transfer_mode.py:237-237 | the label is written in full or the attempt ends; torn states are part of the run |
| TransferProtocol.Site.StartSending | src/hpc_gui/services/files_ssh.py:259-302 | skip, continue or overwrite by size, and each is right because the part is a prefix of the payload |
| TransferProtocol.Site.Send | src/hpc_gui/services/files_ssh.py:259-311 | chunks of any size add up to exactly the payload |
| TransferProtocol.Site.FillPart | src/hpc_gui/services/transfer_mode.py:230-240 | success exactly when no operation fails, and then the part is the payload |
| TransferProtocol.Site.ConvertPart | src/hpc_gui/services/transfer_mode.py:332-335 | succeeds exactly on valid UTF-8 when no operation fails, with the whole-file conversion in the temporary file; the destination is untouched |
| TransferProtocol.Site.ReplaceByConverted | src/hpc_gui/services/transfer_mode.py:336-345 | the destination becomes the converted file or stays; a part that cannot be removed is left behind and ignored |
| TransferProtocol.Site.UploadRemote | src/hpc_gui/services/transfer_mode.py:214-245 | every state passed is a run of the protocol; success exactly when no operation fails, with the payload at the destination and nothing left over; otherwise the destination is as before or already the payload |
| TransferProtocol.Site.UploadWithMode | src/hpc_gui/services/transfer_mode.py:259-289 | the same for both modes: a refused sample, a failing temporary file and any failing transfer step end it, nothing else but invalid UTF-8 in ASCII mode does; ASCII delivers the LF conversion; invalid input changes nothing on the server |
| TransferProtocol.Site.DownloadWithMode | src/hpc_gui/services/transfer_mode.py:303-349 | every state passed is a run of the protocol; the destination is as before or holds all the bytes or all their local conversion, succeeds exactly when nothing fails and an ASCII file is valid UTF-8 |
| TransferQueue.EveryInterleavingIsSafe | src/hpc_gui/services/transfer_controller.py:172-218 | in every interleaving of loop, workers, enqueue (whose items may land at any time after its test), cancel and stop: pending is the unstarted suffix, each started item is running, completed or failed exactly once, at most the limit run, other items run alone after all before them, the first transfer after a delete runs alone, and nothing runs once done |
| TransferQueue.EndedForGood | src/hpc_gui/services/transfer_controller.py:145-153 | what has completed or failed stays so, in order; items keep their places and new ones come behind |
| TransferQueue.RemoveFirstAt | src/hpc_gui/services/transfer_controller.py:139-142 | removing an item from the pending ones takes out the first of the same operation, source and destination |
| TransferQueue.RemoveFirstNone | src/hpc_gui/services/transfer_controller.py:139-142 | and changes nothing if there is none |
| TransferQueue.StepMakesProgress | src/hpc_gui/services/transfer_controller.py:176-214 | a step of the loop or a worker makes progress exactly when it does not close a round that took nothing |
| TransferQueue.NeverStuck | src/hpc_gui/services/transfer_controller.py:176-214 | unless done, the loop or a worker can always take a step |
| TransferQueue.LoopTerminates | src/hpc_gui/services/transfer_controller.py:172-218 | as long as there is no stop without a cancel while a transfer is to come, the number of steps is bounded by the items there are and those enqueued |
| TransferQueue.StoppedQueueEnds | src/hpc_gui/services/transfer_controller.py:187-214 | stopped with no transfer left and nothing enqueued since, the loop ends: its other items are still run |
| TransferQueue.StopNeverLeaves | src/hpc_gui/services/transfer_controller.py:187-214 | stopped at the top of a round with a transfer anywhere ahead, the loop never leaves, unless it is cancelled or an item that runs alone reports that it was |
| TransferQueue.StopSpins | src/hpc_gui/services/transfer_controller.py:187-214 | a stop without a cancel and a transfer next: the round comes back to the very state it started from |
| TransferQueue.LateItemsStayPending | src/hpc_gui/services/transfer_controller.py:85-100 | once the loop has left, enqueued items are accepted but never started in this run; `EndedByLastLook` is the other half |
| TransferQueue.EndedByLastLook | src/hpc_gui/services/transfer_controller.py:172-218 | when a run has left its loop and nothing was cancelled, there is a last look at the queue, and the items that have completed or failed are exactly those in the queue then, given at the start or enqueued on the way |
| TransferQueue.CancelledItemsAreHeeded | src/hpc_gui/services/transfer_controller.py:189-214 | at any moment of any run: a transfer that has reported itself cancelled has cancelled the queue, and any other item that has done so has ended the loop |
| TransferQueue.CancelledStartsNothing | src/hpc_gui/services/transfer_controller.py:105-107 | once both flags of `cancel_all` are set, no further item is ever started |
| RetryRounds.NormalizeOrders | src/hpc_gui/services/transfer_controller.py:55-62 | a new queue of directories and transfers is a permutation with directories first and each kind in its old order |
| RetryRounds.NormalizeKeeps | src/hpc_gui/services/transfer_controller.py:55-62 | whatever it is given, a new queue holds just that, and in the same order if there is anything but directories and transfers in it |
| RetryRounds.SelectPlaces | src/hpc_gui/services/transfer_controller.py:59-60 | a selection is what stands at exactly the places of its kind, in their order |
| RetryRounds.RunKeepsOrder | src/hpc_gui/services/transfer_controller.py:144-153 | in a run without enqueueing, failed directories come before failed transfers |
| RetryRounds.RetryKeepsQueue | src/hpc_gui/services/transfer_controller.py:111-119 | what `retry_failed` leaves is again a queue of distinct items with directories first |
| RetryRounds.RetryConserves | src/hpc_gui/services/transfer_controller.py:111-119 | each item either completed or is in the next run, never both and never neither |
| RetryRounds.NoItemRunsAfterItCompleted | src/hpc_gui/services/transfer_controller.py:111-119 | over any number of run, cancel and retry rounds: directories still to be made come first, and the queue is exactly what was asked for minus what has completed |
| TransferController.Controller.constructor | src/hpc_gui/services/transfer_controller.py:31-53 | the queue holds just what was given, in its order if anything but directories and transfers is in it, else with directories first; the limit is the one asked for within 1..10, and 1 or 10 outside |
| TransferController.Controller.Enqueue | src/hpc_gui/services/transfer_controller.py:85-100 | accepted exactly when there is nothing to add, or running and neither cancelled nor stopped when tested; accepted items go behind all others even if a cancel comes in between; refused ones change nothing |
| TransferController.Controller.CancelAll | src/hpc_gui/services/transfer_controller.py:105-110 | two flags are set one after the other, each a step of its own; a stop sets one |
| TransferController.Controller.StartItem | src/hpc_gui/services/transfer_controller.py:139-142 | removing the first equal pending item removes exactly the started one |
| TransferController.Controller.FinishItem | src/hpc_gui/services/transfer_controller.py:145-153 | the item becomes the newest of the completed list, which stays within its bound, or goes to the failed list with its message; a cancelled transfer cancels the queue |
| TransferController.Controller.CollectBatch | src/hpc_gui/services/transfer_controller.py:188-199 | the batch is a maximal stretch of transfers: it stops at the end of the queue, at a stop, before another kind of item, or at the limit, which is one behind a delete |
| TransferController.Controller.DrainBatch | src/hpc_gui/services/transfer_controller.py:200-214 | all of the batch ends, in any order, even after a cancel |
| TransferController.Controller.Round | src/hpc_gui/services/transfer_controller.py:176-214 | one round is a run of the transition system, with other threads acting between its steps; it makes progress unless stopped with a transfer next |
| TransferController.Controller.Run | src/hpc_gui/services/transfer_controller.py:172-218 | with cancels, stops and enqueues at any time: the loop ends with nothing running, and unless cancelled every item given at the start has completed or failed, and of the enqueued ones exactly those there at the last look; or it is stuck, stopped without a cancel with a transfer next |
| TransferController.Controller.RetryFailed | src/hpc_gui/services/transfer_controller.py:111-119 | failed items, in their order, go before the still pending ones, the queue is ready to start, and the completed list is kept |
| TransferController.LastOfMeans | src/hpc_gui/services/transfer_controller.py:48-48 | a bounded list is the end of all that was added, as long as its bound allows |
| Integrity.VerifyVersionDir | src/hpc_gui/plugins/integrity.py:72-131 | reports no problem exactly when the package is no link, its manifest is the trusted one, every declared file matches, and there is no other file that a scan sees which does not enter linked directories |
| Integrity.VerifiedExactly | src/hpc_gui/plugins/integrity.py:72-131 | what passes, spelled out path by path: no link among the package and its declared files, sizes and hashes as declared, the manifest trusted, and no other file or link to a file but below linked directories |
| Integrity.SameAnchorSameFiles | src/hpc_gui/plugins/integrity.py:72-131 | two packages verified against one manifest hash have the same manifest and the same declared files, or SHA-256 collides; they are equal altogether exactly if their undeclared files below linked directories are |
| Integrity.PinnedAndStray | src/hpc_gui/plugins/integrity.py:122-128 | what the check lets through besides the manifest and the declared files is exactly the undeclared files below linked directories |
| Integrity.NoLinksNoStrays | src/hpc_gui/plugins/integrity.py:122-128 | without linked directories there are none |
| Integrity.StraysAreNotSeen | src/hpc_gui/plugins/integrity.py:105-128 | to any verified package a linked directory with an undeclared file can be added, and it still verifies |
| PluginStore.AnchorPersists | src/hpc_gui/plugins/state.py:108-116 | a recorded trust anchor outlives every event but an install of that version or a removal of the plugin |
| PluginStore.LoadsOnlyInstalledBytes | src/hpc_gui/plugins/loader.py:180-202 | after an install and until the next install or removal of that version, whatever happens on disk, the loader returns that version only with the installed manifest and exactly the installed bytes in every declared file, or SHA-256 collides; other files only below linked directories, and equality exactly when they agree |
| PluginStore.PointersFollowSuccesses | src/hpc_gui/plugins/state.py:156-189 | over any history, crashes and failing index writes included, the active index is what the successful installs and activations made it, and those cut short after setting the pointer; a success means the loader returns that version of a plugin that is not disabled |
| PluginStore.MigrationKeepsLoading | src/hpc_gui/plugins/integrity.py:187-199 | giving a version the anchor its files match changes nothing in what the loader accepts |
| PluginStore.PointAndCheck | src/hpc_gui/plugins/state.py:174-187 | set pointer, load, restore on failure is one activation step, which succeeds exactly if the version would load; so it is when the restoring is cut short |
| PluginStore.RecordAndCheck | src/hpc_gui/plugins/installer.py:357-392 | record, point, load, restore on failure is one install step, whose anchor stays recorded; so it is when the restoring is cut short |
| PluginStore.StagedHolds | src/hpc_gui/plugins/installer.py:279-309 | the staged package holds exactly the manifest and the declared files, each as fetched |
| PluginStore.MatchMeansSameFiles | src/hpc_gui/plugins/installer.py:179-214 | an existing directory that is reused holds exactly the staged files, or SHA-256 collides; beside them only undeclared files below linked directories, and it equals the staged one exactly if there are none |
| PluginStore.SameIsReused | src/hpc_gui/plugins/installer.py:333-337 | a directory that holds what would be staged is no conflict |
| PluginStore.FetchedAreDeclared | src/hpc_gui/plugins/installer.py:279-322 | what may be published holds the manifest and every declared file with its size and hash, and nothing else |
| PluginStore.Store.EnsureTrustedHash | src/hpc_gui/plugins/integrity.py:157-199 | returns the recorded hash, or that of a manifest its files match; writing it down may fail |
| PluginStore.Store.LoadInstalledPlugins | src/hpc_gui/plugins/loader.py:111-202 | loads exactly the acceptable plugins, each judged as if alone; every one returned is enabled, safely named, and its manifest names that plugin and version and suits the application |
| PluginStore.LoadsExactly | src/hpc_gui/plugins/loader.py:130-202 | what is acceptable, in terms of the files on disk and the recorded hashes |
| PluginStore.Store.SetPointer | src/hpc_gui/plugins/storage.py:112-130 | an index write and read-back changes one pointer and keeps the index well-formed; a failing one either changes nothing or has already taken effect, when setting the mode fails |
| PluginStore.Store.KeepOrRestore | src/hpc_gui/plugins/installer.py:363-392 | the pointer stays if the loader returns the version, else the whole index is as before, unless the restoring write fails without effect |
| PluginStore.Store.ActivateVersion | src/hpc_gui/plugins/state.py:156-189 | unless a write fails: succeeds exactly if the version would load as active, and a failure leaves every pointer as it was |
| PluginStore.Store.RecordInstalledVersion | src/hpc_gui/plugins/state.py:83-120 | the version gets its anchor and the pointer, all other anchors and pointers stay; a failing write leaves the pointers as they were, or set if it failed after the replacement |
| PluginStore.Store.WriteRecord | src/hpc_gui/plugins/state.py:101-116 | the version is listed with its hash and no longer as migrated; nothing else in the index changes |
| PluginStore.Store.InstallFromRegistry | src/hpc_gui/plugins/installer.py:217-398 | unless a write fails: success exactly if the payload arrived, an existing directory matches and the version loads; then anchor and declared files are those fetched; whatever is newly published has been verified byte by byte; published directories never change; a failure leaves every pointer as it was |
| PluginStore.Store.RemovePlugin | src/hpc_gui/plugins/state.py:132-153 | the plugin's records and pointer go, all other plugins are untouched, deleting its files is best effort; a failing write stops it on the way |
| PluginStore.DisablingConcernsOne | src/hpc_gui/plugins/state.py:192-204 | disabling a plugin keeps it from loading and changes nothing for any other; enabling it again undoes just that |
| FileTree.NothingBelow | src/hpc_gui/services/files_mock.py:53-75 | in a closed tree there is nothing below a path that is no directory |
| MockPaths.NormShape | src/hpc_gui/services/files_mock.py:12-17 | a normalised path is the text of a list of components, or that behind a second slash |
| MockPaths.NormOfAbsolute | src/hpc_gui/services/files_mock.py:12-17 | of a clean absolute path it is the normal form of `NormalisingLaws`, with a second slash kept; of the empty path the root |
| MockPaths.NormOfOthers | src/hpc_gui/services/files_mock.py:12-17 | a missing slash is added, backslashes count as slashes, blanks at the ends do not count |
| MockPaths.ParentLoopEndsExactly | src/hpc_gui/services/files_mock.py:53-61 | the loop over parent directories ends exactly for paths whose normal form does not start with two slashes |
| MockPaths.DoubleSlashPath | src/hpc_gui/services/files_mock.py:12-17 | such paths exist: two slashes and a name are their own normal form |
| MockPaths.DirnameOf | src/hpc_gui/services/files_mock.py:54-58 | the directory of the text of a component list is the text of its parent |
| MockPaths.TextsAreRooted | src/hpc_gui/services/files_mock.py:34-43 | the texts of a tree's directories have the root among them and none with two slashes in front |
| MockPaths.BelowByText | src/hpc_gui/services/files_mock.py:156-159 | to start with the directory and a slash is to be a proper extension of its components |
| MockPaths.ImageByText | src/hpc_gui/services/files_mock.py:193-194 | the target composed for a member of a subtree is the text of its image exactly if source and target are both the root or both not |
| FileTree.ImageInjective | src/hpc_gui/services/files_mock.py:193-201 | no two members of a subtree are copied onto each other |
| FileTree.Tree.EnsureParentDirs | src/hpc_gui/services/files_mock.py:53-61 | exactly the directories above the path are added, and the tree stays closed |
| FileTree.Tree.Mkdir | src/hpc_gui/services/files_mock.py:140-145 | adds the directory and those above it |
| FileTree.Tree.WriteText | src/hpc_gui/services/files_mock.py:101-106 | stores the bytes and adds the directories above |
| FileTree.Tree.WriteOverDirectory | src/hpc_gui/services/files_mock.py:101-106 | a path that is both a file and a directory does arise: by writing a file over a directory |
| FileTree.Tree.Children | src/hpc_gui/services/files_mock.py:63-73 | lists exactly the names of the immediate children |
| FileTree.Tree.Remove | src/hpc_gui/services/files_mock.py:147-170 | which error when; otherwise exactly the file or the whole subtree goes, and the root stays |
| FileTree.Tree.CopyTree | src/hpc_gui/services/files_mock.py:186-201 | the images of exactly the subtree's directories and files are added, with the same bytes, in any order of copying |
| FileTree.Tree.Copy | src/hpc_gui/services/files_mock.py:175-201 | which error when, and then nothing changes; otherwise a file copy or a tree copy |
| FileTree.MovedFile | src/hpc_gui/services/files_mock.py:203-209 | moving a file is exact exactly when no path of the subtree is both file and directory |
| FileTree.MovedDir | src/hpc_gui/services/files_mock.py:203-209 | the same for a directory with everything below it |
| FileTree.Tree.Move | src/hpc_gui/services/files_mock.py:203-209 | for a free target apart from the source: the move relocates exactly the subtree and changes nothing else but new parents, if and only if no path in it is both a file and a directory |
| Lint.LineIndex.constructor | src/hpc_gui/lint/engine.py:26-30 | the offsets are exactly the starts of all lines |
| Lint.LineIndex.Position | src/hpc_gui/lint/engine.py:32-42 | the binary search returns the place of the offset, moved into the text |
| Lint.PlaceExactly | src/hpc_gui/lint/engine.py:32-42 | a place: as many newlines before it as its line says, and as many characters since the last one as its column says |
| Lint.GreedyPlaces | src/hpc_gui/lint/engine.py:140-153 | what the search finds is a placement in order without overlap |
| Lint.GreedyStaysAhead | src/hpc_gui/lint/engine.py:140-153 | if any placement exists the search finds all patterns, and its cursor is never behind |
| Lint.GreedyIsComplete | src/hpc_gui/lint/engine.py:140-153 | the search finds every pattern exactly when they can be placed at all |
| Lint.PlaceInOrder | src/hpc_gui/lint/engine.py:140-153 | the loop places as many patterns as the greedy search, keeps the position of the last, and knows whether the next occurs anywhere |
| Lint.LastPlaceExactly | src/hpc_gui/lint/engine.py:146-153 | the place reported is, with the most first patterns placed that can be, the earliest at which the last of them can stand |
| Lint.OrderedPatterns | src/hpc_gui/lint/engine.py:140-156 | with `require_all` silent exactly when the patterns can be placed in order; without, reports exactly a pattern that cannot follow the others though it occurs; the place reported is that of the last one found |
| Lint.Count | src/hpc_gui/lint/engine.py:157-164 | reports exactly a text into which the least number of occurrences does not fit without overlap, or one more than the largest number does |
| Lint.CountIsMost | src/hpc_gui/lint/engine.py:159-159 | the count is the largest number of non-overlapping occurrences |
| TerminalText.ReadAt | src/hpc_gui/ssh/shell_session.py:56-95 | one round of the loop consumes at least one character and emits at most one |
| TerminalText.Sanitize | src/hpc_gui/ssh/shell_session.py:41-95 | ends on every string, with the sanitized text |
| TerminalText.SanitizedIsStable | src/hpc_gui/ssh/shell_session.py:41-95 | no character below 32 but LF and TAB comes out, never more than went in, and sanitizing twice equals once |
| TerminalText.SanitizedAroundCsi | src/hpc_gui/ssh/shell_session.py:55-60 | a control sequence goes with its parameters and its final character, and the text around it stays |
| TerminalText.SanitizedAroundString | src/hpc_gui/ssh/shell_session.py:70-77 | so does a string sequence through its terminator |
| TerminalText.SanitizedAroundEscape | src/hpc_gui/ssh/shell_session.py:78-80 | so does ESC with any other character of its range |
| TerminalText.SanitizedCharsets | src/hpc_gui/ssh/shell_session.py:61-69 | between ESC ( 0 and ESC ( B characters are translated, and not before or after |
| TerminalText.CsiIsDropped | src/hpc_gui/ssh/shell_session.py:55-60 | the same anywhere in a text and in either charset |
| TerminalText.OpenCsiIsDropped | src/hpc_gui/ssh/shell_session.py:55-60 | a control sequence that does not end goes with all that follows |
| TerminalText.StringIsDropped | src/hpc_gui/ssh/shell_session.py:70-77 | a string sequence anywhere, in either charset |
| TerminalText.OpenStringIsDropped | src/hpc_gui/ssh/shell_session.py:70-77 | a string that does not end goes with all that follows |
| TerminalText.EscapeIsDropped | src/hpc_gui/ssh/shell_session.py:78-82 | ESC with a character out of range, or at the end, goes alone |
| TerminalText.CharsetIsSwitched | src/hpc_gui/ssh/shell_session.py:61-69 | which designations switch the charset; others change nothing |
| TerminalText.ControlIsDropped | src/hpc_gui/ssh/shell_session.py:83-89 | control characters go; 14 and 15 switch the charset |
| TerminalText.TextIsCopied | src/hpc_gui/ssh/shell_session.py:90-94 | other characters are copied, or translated in the alternate charset |
| TerminalText.DrawnApart | src/hpc_gui/ssh/shell_session.py:18-38 | no two characters are drawn alike |
| TerminalText.LinesByTheirSides | src/hpc_gui/ssh/shell_session.py:18-38 | which characters are the lines, corners, tees and the cross |
| AppImageUpdate.ProgressGuard.Call | src/hpc_gui/services/updater_helper.py:55-60 | reported values never decrease and stay in 0..100; a value within that is reported unless a greater one was |
| AppImageUpdate.Installation.CopyFile | src/hpc_gui/services/updater_helper.py:80-90 | the staged file is the whole package exactly if no operation fails, and the progress has then reached its end |
| AppImageUpdate.Installation.Swap | src/hpc_gui/services/updater_helper.py:112-122 | where target and backup stand at every point of failure; success only if the started program keeps running or ends with code 0 |
| AppImageUpdate.Installation.InstallAppImage | src/hpc_gui/services/updater_helper.py:93-134 | success exactly if nothing fails and the started program keeps running or ends with code 0, with exactly the package and no backup; with no older backup left over (or one that equals the target) every failure leaves the old file; otherwise a failure before that backup is removed puts it in place of the target, and no other does |
| CommandHistory.SqueezedEnd | src/hpc_gui/services/command_history_store.py:104-111 | dropping immediate repeats leaves no equal neighbours, keeps the last command, and changes nothing that has none |
| CommandHistory.SqueezedPlaces | src/hpc_gui/services/command_history_store.py:104-111 | exactly the first of equal neighbours stay, in their order |
| CommandHistory.LastItemsMeans | src/hpc_gui/services/command_history_store.py:106-106 | the end of the list, as long as asked for if the list is, and all of it for 0 |
| CommandHistory.LoadFromDisk | src/hpc_gui/services/command_history_store.py:82-111 | loads the last commands of the file without immediate repeats; of a file the program wrote, exactly its recent end |
| CommandHistory.TrimmedIsRecent | src/hpc_gui/services/command_history_store.py:133-136 | trimming at every step keeps the recent end of the whole log |
| CommandHistory.JournalIsSqueezed | src/hpc_gui/services/command_history_store.py:124-137 | refusing a repeat at once leaves what dropping the repeats of all accepted commands since the last clear would leave |
| CommandHistory.Store.AddCommand | src/hpc_gui/services/command_history_store.py:113-137 | memory stays the recent end of the journal of all calls, within its bound and without equal neighbours, and so does the file as long as no operation on it fails |
| CommandHistory.Store.ClearDisk | src/hpc_gui/services/command_history_store.py:139-145 | memory is emptied in any case; a file that cannot be removed keeps its entries |
| CommandHistory.Store.Reopen | src/hpc_gui/services/command_history_store.py:78-111 | a new store loads the recent end of the file without repeats: the same list, if no operation on the file has failed |
| NavigationHistory.NormalizeTwice | src/hpc_gui/services/remote_navigation_store.py:90-91 | normalising a path is idempotent |
| NavigationHistory.NormalizeExactly | src/hpc_gui/services/remote_navigation_store.py:90-91 | only slashes at the end go, all of them, and the root stays |
| NavigationHistory.LatestFirstMeaning | src/hpc_gui/services/remote_navigation_store.py:216-227 | the untruncated history is exactly the latest visit of each path, latest first |
| NavigationHistory.LatestAreDistinct | src/hpc_gui/services/remote_navigation_store.py:216-227 | each path stands in it once |
| NavigationHistory.CutBeforeOrAfter | src/hpc_gui/services/remote_navigation_store.py:220-226 | cutting before removing a repeat loses nothing that cutting afterwards would show |
| NavigationHistory.Store.Others | src/hpc_gui/services/remote_navigation_store.py:220-224 | the filter by normalised path keeps the entries of other directories in order |
| NavigationHistory.Store.RecordVisit | src/hpc_gui/services/remote_navigation_store.py:216-227 | after any visits the stored list is what one truncation of the whole visit log would leave |
| NavigationHistory.Store.ClearHistory | src/hpc_gui/services/remote_navigation_store.py:229-234 | log and list start anew |
| Blanks.StripExactly | src/hpc_gui/services/synchronized_browsing.py:34-47 | stripping takes all blanks at either end and nothing else |
| PathMapping.NormPathShortens | src/hpc_gui/services/synchronized_browsing.py:41-43 | normalising never makes an absolute path longer |
| PathMapping.NormalisingLaws | src/hpc_gui/services/synchronized_browsing.py:41-50 | empty parts and "." change nothing, a name is appended, ".." takes back the name before it, and above the root there is nothing |
| PathMapping.ReadBack | src/hpc_gui/services/synchronized_browsing.py:88-105 | a rendered path reads back as its components exactly when it does not end in a blank |
| PathMapping.InsideByComponents | src/hpc_gui/services/synchronized_browsing.py:62-133 | for absolute POSIX paths with one leading slash and no backslash, both directions answer exactly for paths inside their root by whole components, and with such a path |
| PathMapping.ClimbingOut | src/hpc_gui/services/synchronized_browsing.py:62-105 | a path that climbs out of a root is inside it only if it comes back in |
| PathMapping.MapsBelow | src/hpc_gui/services/synchronized_browsing.py:108-133 | in texts: what is below the one root is put below the other, both ways |
| PathMapping.NoRoots | src/hpc_gui/services/synchronized_browsing.py:108-124 | with a blank root nothing is mapped |
| PathMapping.LocalRoundTrip | src/hpc_gui/services/synchronized_browsing.py:108-133 | for such paths, local to remote and back gives the normalised local path exactly when the remote path does not end in a blank |
| PathMapping.RemoteRoundTrip | src/hpc_gui/services/synchronized_browsing.py:108-133 | the same from the remote side, with the condition on the local path |
| PathMapping.SlashProtects | src/hpc_gui/services/synchronized_browsing.py:88-105 | every list of components, also one that ends in a blank, is what some such path stands for |
| PathMapping.BlankIsLost | src/hpc_gui/services/synchronized_browsing.py:108-133 | below any roots, a directory whose name ends in a blank does not survive either round trip |

## Left out

- User interface, network, processes, threads as such, encryption and key stores: only their effects on the modelled state appear, as steps or as operations that may fail.
- Transfer mode detection and the sample check for binary data: a refused sample is one of the failures an attempt may have; the converter itself is modelled on every input.
- Backends without `rename`, `stat` or `read_text`, and the fallbacks for unimplemented operations.
- Paths with lone surrogates, as Python has for undecodable file names.
- The contents an identity names are a function of it, `exists` is accurate and a rename is atomic; the size and the label of a part may be unreadable.
- FTP as a backend of the methods of `Site`: its label write is a step of the runs of `FtpLabels` only.
- `remove_pending_items`, `clear_pending` and priorities: they do not govern what the loop runs.
- TransferController.Controller.Run: starts from a fresh queue or from what `retry_failed` leaves; a second `start` without it, which walks the old items from the beginning, is not modelled.
- Progress callbacks of the queue and of transfers, and subscribers that raise.
- SHA-256 is an abstract function; results that depend on it are stated with "or SHA-256 collides".
- PluginStore.Store.InstallFromRegistry: the registry's expected digest is not empty, as no digest is; a download that fails counts as a payload that did not arrive.
- Manifest and entrypoint validation are abstract predicates, index files are assumed intact, and `migrate_legacy_records` is covered by the migration a load may do.
- Order of problems, sizes of fields and timestamps in the plugin indexes; the version lists are sets.
- File modes and modification times in the mock tree. Paths are lists of components there; for a path that starts with two slashes, for the root as source of a copy or move and for copying to the root, where the program composes other texts or does not return, see `MockPaths`.
- FileTree.Tree.EnsureParentDirs: is stated on component lists; for a path that starts with two slashes the program's loop does not return (`MockPaths.ParentLoopEndsExactly`).
- Lint rules by regular expression, the caps on text and diagnostics, and their sorting.
- The session around the sanitizer, such as partial sends of a payload.
- Windows rules in synchronized browsing, by which also a POSIX path with a backslash is read, and relative paths, `~` and two or more leading slashes.
- macOS, DEB, Flatpak and PowerShell updates; failures inside the rollback and in the progress callback of an AppImage update.
- Malformed lines of the command history; which commands are sensitive is a parameter.
- Favourites of the navigation store and its encryption.
