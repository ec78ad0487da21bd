# TokenOps: a verified model of its hook installer, menu bar and wizard

TokenOps edits hook files that belong to other tools, shows plan usage in the menu bar, and
asks a few questions when it is set up. This project models the parts of that code with the
most branching and state, in Dafny 4.11, and proves what they keep over every input, every
history and every interleaving. `dafny verify dfyconfig.toml` checks all of it.

## What is modelled

- **The hook merger** (`HookEntries`, `HookConfig`, `HookSpecs`, `HookMerge`, `HookHistory`,
  `HookRestore`, `HookOwned`, `HookIdempotence`, `HookEditor`, `CursorHooks`). JSON is a tree with
  unordered objects. The in-place editors are methods of `HookFile`, `SettingsFile` and `CursorFile`, each tied to a
  function of the old map; whole histories of installs and uninstalls are folds of those functions.
- **Command lines** (`CommandLine`): the quoting printer, the tokenizer that reads it back, and a
  reader for sections 2.2.1 and 2.2.2 of the POSIX.1-2017 Shell Command Language.
- **JSON Pointer** (`JsonPointer`, `Numbers`): the resolver next to RFC 6901.
- **The line wrapper** (`WrapWords`): lossless, valid, idempotent and with the fewest lines.
- **The menu bar** (`Refresh`, `RefreshProtocol`, `RefreshMarks`, `Alerts`, `AlertMeasures`, `AlertRuns`, `AlertOrder`, `Glance`, `Gauge`, `TrayIcon`): overlapping
  refreshes as threads whose steps are the critical sections, alert hysteresis over runs of readings,
  and the gauge down to its pixels. Times are parameters; usage figures are reals.
- **The init wizard** (`Wizard`): questions over an input that may end anywhere.
- **Two resolvers** (`ClaudeHome`, `RulesRoot`): a scan that stands for a merge, and an ancestor walk.

## Where the code and its documentation disagree

The model follows the code. Each line names the lemma that states exactly when the two agree.

- The Cursor installer says it leaves other entries alone; it overwrites any entry whose command
  mentions the verb (`CursorInstallUndoneExactly`, `MentioningTheVerbIsEnough`).
- A merge turns a bare foreign entry with the same (empty) matcher into a group, which an uninstall
  then drops; it also overwrites an event that is not a list and loses an empty list (`MergeUndoneExactly`; `BareEntryIsLost` and `BareStopHookIsLost` are losses).
- The read guard is refused by name on Codex and Cursor, yet an install that names nothing wires it
  there (`UnsupportedReadGuardInstalledExactly`).
- `splitCommandLine` reads `shellQuote` back only for paths without single quotes (`SplitReadsCommandString`).
  Status sees the entry exactly when the path is non-empty with an even number of them in all and before every
  blank, or when it breaks up, its own second piece is the verb, and that piece is finished: another follows it,
  or no quote is left open (`OneStringShapesRecognisedExactly`; `BrokenPathHoldsVerb` and `BrokenPathSwallowsVerb`
  are families on either side).
- Re-running an install is said never to duplicate; on Codex it adds an entry every time for a path whose entries
  are not seen, and so changes nothing exactly when all are (`InstallAgainExactly`).
- `shellQuote` quotes for blanks and quotes only; other shell characters are printed bare
  (`ShellReadsQuotedPathExactly`; `BareCharacterIsMisread` and `AmpersandIsMisread` are misread paths).
- The pointer resolver takes array indices RFC 6901 rejects, such as `01` and `+1` (`ResolverExtendsRfc`, `LenientIndices`).
- `wrapWords` speaks of runes and counts bytes; its lines are those of the rune count exactly when each of
  these also fits in bytes or is one word (`RunesAgreeExactly`, with `RunesCanFitOneLine` where it is not).
- "A later managed file overrides an earlier one" does not hold for an explicitly empty value
  (`ScanIsPlainMergeExactly`; `EmptyValueIsSkipped` where it does not).
- The start shown beside "fetching" is that of the busy period, not always of a read in progress (`LoadingSinceIsTheBusyStart`).
- The "refreshing" mark is right at every point of a run exactly when no refresh ends, and no answer declines
  to poll, while another is still coming in (`RefreshingExactly`; `AnEndingHidesALaterRefresh` is a run where one does).

## Model

| member | source | states |
|---|---|---|
| CommandLine.SplitCommandLine | internal/cli/hooks_settings.go:269-297 | the tokenizer loop computes the tokens of the whole line |
| CommandLine.SplitReadsCommandString | internal/cli/hooks_settings.go:266-306 | reading a printed command line back gives the path and arguments if and only if the path is non-empty and has no single quote |
| CommandLine.VerbReadableExactly | internal/cli/hooks_settings.go:251-264 | over every path, the verb stays readable exactly when the path reads as one token, or breaks up with the verb as its own second piece and that piece finished |
| CommandLine.OtherPathsReadableExactly | internal/cli/hooks_settings.go:251-306 | a path without the verb in it keeps it readable exactly when non-empty, with an even number of single quotes in all and before every blank |
| CommandLine.BrokenPathHoldsVerb | internal/cli/hooks_settings.go:251-264 | after any text without quotes, a quote, a blank and the verb make a path that is taken for ours all the same |
| CommandLine.BrokenPathSwallowsVerb | internal/cli/hooks_settings.go:251-297 | without a blank after it the same path leaves its quote open and is not |
| CommandLine.ShellReadsQuotedPathExactly | internal/cli/hooks_settings.go:299-306 | POSIX quote removal of the printed path is one word equal to it, exactly when it was quoted or holds nothing the shell acts on where it stands |
| CommandLine.BareCharacterIsMisread | internal/cli/hooks_settings.go:301-304 | any other shell character in a path without blanks and quotes is printed bare and misread |
| CommandLine.ShellReadsCommandString | internal/cli/hooks_codex.go:19-27 | a shell splits the printed command string into the path, single quotes included, and the arguments |
| HookEntries.OwnedIsMarkerEntry | internal/cli/hooks_settings.go:239-249 | the recognition predicate is "the one marker of the entry is this one" |
| HookEntries.EveryShapeIsRecognised | internal/cli/hooks_settings.go:230-249 | Claude, Codex and Cursor entries are recognised under their own verb and no other |
| HookEntries.OneStringShapesRecognisedExactly | internal/cli/hooks_cursor.go:34-39 | over every binary path, whether its one-string entry is recognised, both directions |
| HookEntries.RecognitionByFields | internal/cli/hooks_settings.go:239-249 | which entries are ours, by type, args array and command as the JSON has them |
| HookEntries.EntryShapes | internal/cli/hooks_claude.go:16-26 | the keys and constant fields of each client's entry |
| HookEntries.EntryRuns | internal/cli/hooks_claude.go:16-26 | read off the JSON, an entry runs exactly the binary and its arguments |
| HookConfig.RemoveTwice | internal/cli/hooks_settings.go:149-197 | removing two marker sets in turn is removing their union, on any JSON |
| HookConfig.RemovalsCommute | internal/cli/hooks_settings.go:149-197 | removal is idempotent and two markers' removals commute |
| HookConfig.RemovalIsExact | internal/cli/hooks_settings.go:149-223 | after a removal the markers are found nowhere and every other entry keeps its matcher and order |
| HookMerge.MergeUndoneExactly | internal/cli/hooks_settings.go:57-92 | an uninstall takes back exactly what a merge did if and only if the merge landed on nothing, or on a real group or an own entry of a non-empty list |
| HookMerge.BareEntryIsLost | internal/cli/hooks_settings.go:57-92 | any bare foreign entry merged into is gone after the uninstall |
| HookMerge.MergedListKept | internal/cli/hooks_settings.go:57-92 | a merge is invisible once its marker is removed exactly when it lands safely, and costs a foreign element otherwise |
| HookMerge.RetiredListKept | internal/cli/hooks_settings.go:97-129 | retiring superseded matchers leaves the foreign part alone |
| HookMerge.MergeElsewhere | internal/cli/hooks_settings.go:57-92 | a merge leaves other matchers' entries alone |
| HookMerge.MergeSets | internal/cli/hooks_settings.go:64-83 | under its matcher a merge leaves exactly the new entry for its marker and the other markers' entries as they were |
| HookMerge.RetireTakes | internal/cli/hooks_settings.go:97-129 | a retirement takes the marker's entries from the retired matchers and nothing else |
| HookMerge.RetiredElemExactly | internal/cli/hooks_settings.go:104-124 | what a retirement leaves of any one element |
| HookMerge.SoleMerge | internal/cli/hooks_settings.go:57-92 | own entries stay in the first group of their matcher through a merge |
| HookMerge.SoleRetire | internal/cli/hooks_settings.go:97-129 | own entries stay in the first group of their matcher through a retirement |
| HookMerge.SoleKeep | internal/cli/hooks_settings.go:158-197 | own entries stay in the first group of their matcher through a removal |
| HookSpecs.SpecsForModeWithRoute | internal/cli/hooks.go:107-184 | the chain of appends produces the specs of the selection |
| HookSpecs.SpecsAreValid | internal/cli/hooks.go:107-184 | every selection yields a non-empty list of well-formed specs in distinct groups, none retiring another's |
| HookSpecs.UninstallCoversInstall | internal/cli/hooks_uninstall.go:96-114 | an uninstall with an install's flags names every marker the install wired |
| HookSpecs.SelectedExactly | internal/cli/hooks_uninstall.go:96-114 | each of the four markers is selected if and only if its flag is given or none is |
| HookSpecs.RefusedExactly | internal/cli/hooks.go:293-311 | which selections each client refuses |
| HookSpecs.SpecsExactly | internal/cli/hooks.go:107-184 | for every client and selection an install wires the written-out hooks and no others |
| HookSpecs.UnsupportedReadGuardInstalledExactly | internal/cli/hooks.go:293-311 | an accepted Codex or Cursor install wires the refused read guard exactly when it names nothing |
| HookHistory.InstallIsHarmless | internal/cli/hooks.go:387-403 | an install keeps a well-formed config well formed and its foreign part as it was |
| HookHistory.HistoryKeepsForeign | internal/cli/hooks.go:385-428 | over any history of installs and uninstalls the foreign groups, entries, order and other document keys never change |
| HookHistory.ForeignEntriesStay | internal/cli/hooks_settings.go:57-197 | over any history every foreign entry stays under its event and matcher, in order |
| HookHistory.UninstallTakesExactlyTheNamed | internal/cli/hooks_uninstall.go:48-75 | per flag, an uninstall empties its marker at every event, or all four when none is given, and leaves the other markers' entries as they were |
| HookHistory.QuietCommandsWriteNothing | internal/cli/hooks.go:403-408 | an install that changes nothing and an uninstall that finds nothing leave the document as it is |
| HookRestore.RemoveUntouchedExactly | internal/cli/hooks_settings.go:158-197 | a removal changes nothing exactly when nothing is owned and no group is empty |
| HookRestore.UninstallRestoresExactly | internal/cli/hooks_uninstall.go:50-60 | install then full removal gives the hooks back exactly when they had nothing of ours and no empty group |
| HookRestore.FullUninstallRestoresTheFile | internal/cli/hooks_uninstall.go:48-75 | after any history, an uninstall naming nothing leaves exactly the starting file |
| HookRestore.FullUninstallRestoresExactly | internal/cli/hooks_uninstall.go:48-75 | after any history ended by an accepted install, it does so if and only if the file held nothing of ours, no empty group, and an absent or non-empty hook map |
| HookOwned.HistoryRefinesWiring | internal/cli/hooks.go:387-403 | after any history the entries status finds per event, matcher and marker are exactly those of an abstract wiring map |
| HookOwned.NeverTwice | internal/cli/hooks_settings.go:206-223 | from a foreign file there is never more than one entry per event, matcher and marker, and it is the wired one |
| HookOwned.InstallWires | internal/cli/hooks.go:388-402 | after an install every spec it named is wired to that binary, and the entry runs it with the spec's arguments |
| HookOwned.InstalledHooksRun | internal/cli/hooks.go:385-402 | after an install status shows for each wanted hook one entry, under its event and matcher, that runs the binary with the written-out arguments |
| HookOwned.InstallLeavesTheRest | internal/cli/hooks.go:385-402 | under every other event, matcher and marker what was shown stays, unless a wanted hook replaces it |
| HookOwned.WarnsExactlyOnRewiring | internal/cli/hooks.go:388-399 | a whole install, retirements included, warns exactly for the specs whose wired entry ran another command when their turn came, and names it |
| HookIdempotence.MergeTwice | internal/cli/hooks_settings.go:57-92 | a second identical merge changes nothing, whatever the list held |
| HookIdempotence.StepKeepsSettled | internal/cli/hooks.go:388-402 | a spec's turn leaves every other settled spec settled |
| HookIdempotence.InstallTwice | internal/cli/hooks.go:385-408 | a repeated install reports no change and makes none, from any hooks at all |
| HookIdempotence.InstallDocTwice | internal/cli/hooks.go:403-424 | a repeated install leaves the file as the first left it |
| HookIdempotence.StepChangesExactly | internal/cli/hooks.go:392-398 | a turn reports a change if and only if it left other hooks than it found |
| HookIdempotence.ChangesAreTheTurns | internal/cli/hooks.go:385-402 | an install reports, in order, exactly the specs whose turn changed the hooks |
| HookIdempotence.UnrecognisedInstallGrows | internal/cli/hooks_settings.go:64-92 | every install of a spec whose entry is not taken for ours writes another copy |
| HookIdempotence.InstallAgainExactly | internal/cli/hooks.go:64-66 | a repeated install changes and reports nothing if and only if the entry of every spec is taken for ours |
| HookEditor.HookFile.MergeHook | internal/cli/hooks_settings.go:57-92 | the new map, whether it changed, and the warning, as functions of the old map |
| HookEditor.HookFile.RetireMatchers | internal/cli/hooks_settings.go:97-129 | the new map, and whether anything was retired |
| HookEditor.HookFile.RemoveMarker | internal/cli/hooks_settings.go:158-197 | the new map whatever order the events come in, and whether anything was found |
| HookEditor.HookFile.FindMarkerEntries | internal/cli/hooks_settings.go:206-223 | per event, exactly the located entries in order |
| HookEditor.LocatedEach | internal/cli/hooks_settings.go:206-223 | one line for each entry found, with its event, matcher and command |
| HookEditor.HookFile.InstallSpecs | internal/cli/hooks.go:387-402 | the whole install loop, the changes it reports and the warnings it prints |
| HookEditor.HookFile.RemoveMarkers | internal/cli/hooks_uninstall.go:50-55 | removing markers one by one amounts to removing them all, and reports those that were there in the order asked for |
| HookEditor.ReportedInOrder | internal/cli/hooks_uninstall.go:50-55 | the markers found are reported in the order asked for |
| HookEditor.SettingsFile.Install | internal/cli/hooks.go:350-428 | the file after an install, refused or not, nothing written without a change, and the changes and warnings reported |
| HookEditor.SettingsFile.Uninstall | internal/cli/hooks_uninstall.go:48-75 | the file after an uninstall, nothing written when nothing was found, and the markers found in the order selected |
| HookEditor.DropMarked | internal/cli/hooks_settings.go:110-118 | the filter loop keeps exactly the entries without the marker |
| CursorHooks.ReplaceMarkedEntry | internal/cli/hooks_cursor.go:87-105 | the list afterwards, and whether it changed |
| CursorHooks.OthersAreKept | internal/cli/hooks_cursor.go:89-101 | an element whose command does not hold the verb keeps its place and content |
| CursorHooks.CursorFile.Install | internal/cli/hooks_cursor.go:34-46 | the flat install loop over a Cursor hook map and the changes it reports |
| CursorHooks.CursorInstallUndoneExactly | internal/cli/hooks_cursor.go:83-105 | the installer leaves foreign entries recoverable if and only if the first element mentioning the verb is ours or unchanged |
| CursorHooks.MentioningTheVerbIsEnough | internal/cli/hooks_cursor.go:93-101 | any foreign entry whose command mentions the verb is overwritten for good |
| CursorHooks.ForeignPathMentionsTheVerb | internal/cli/hooks_cursor.go:93-96 | a foreign path holding the verb is such an entry |
| CursorHooks.CursorHistory | internal/cli/hooks_cursor.go:34-46 | over any history each event shows exactly the last installed entry and everything else is untouched |
| CursorHooks.CursorInstalledHooksRun | internal/cli/hooks_cursor.go:34-46 | after an install each event it writes holds one element with the verb, and that one runs the binary with the written-out arguments |
| CursorHooks.CursorUninstallTakesExactlyTheNamed | internal/cli/hooks_uninstall.go:48-75 | per flag, as for the nested files |
| CursorHooks.CursorRestoresExactly | internal/cli/hooks_uninstall.go:50-60 | after any history, taking all markers out gives the starting Cursor hooks back if and only if they held nothing of ours and no empty group |
| CursorHooks.CursorInstallTwice | internal/cli/hooks_cursor.go:83-105 | a repeated Cursor install changes nothing |
| JsonPointer.ResolveJSONPointer | internal/cli/outcome_json.go:120-148 | the loop computes the walk, with the four error cases |
| JsonPointer.FailsExactly | internal/cli/outcome_json.go:120-148 | a pointer fails for want of a slash or at the first component with nothing under it, and the error says which and why |
| JsonPointer.ScalarsMeetingAText | internal/cli/outcome_json.go:150-163 | what scalars meet an expected text, and that objects and lists meet none |
| Numbers.AtoiExactly | internal/cli/outcome_json.go:138 | the texts read as an integer, and as which |
| JsonPointer.TwoPassesAreOne | internal/cli/outcome_json.go:129 | the two replacements equal one left-to-right decoder on every string |
| JsonPointer.DecodeOfEscape | internal/cli/outcome_json.go:129 | decoding undoes RFC 6901 escaping, and escaped keys are valid tokens |
| JsonPointer.PointerRoundTrip | internal/cli/outcome_json.go:120-148 | a location's pointer resolves to the node there, for every document and location |
| JsonPointer.PointersAreDistinct | internal/cli/outcome_json.go:120-148 | locations of one document with equal pointers are equal |
| JsonPointer.KeyPathsAreDistinct | internal/cli/outcome_json.go:128-129 | different key paths have different pointers |
| JsonPointer.ResolvesToASubdocument | internal/cli/outcome_json.go:127-147 | whatever resolves is a sub-document as deep as the pointer has tokens |
| JsonPointer.ResolverExtendsRfc | internal/cli/outcome_json.go:127-147 | agrees with the RFC's evaluation wherever that succeeds, and succeeds further exactly on non-strict tokens |
| JsonPointer.LenientIndices | internal/cli/outcome_json.go:137-142 | two indices the RFC rejects and the resolver takes |
| WrapWords.WrapString | internal/cli/fmt_eval.go:146-163 | the builder loop yields the texts of the wrapped lines |
| WrapWords.FieldsExactly | internal/cli/fmt_eval.go:149 | fields split at every space, a word is its own field, and nothing has none |
| WrapWords.LinesAreFull | internal/cli/fmt_eval.go:149-158 | no line could have taken the first word of the next |
| WrapWords.RuneBytesAreFewest | internal/cli/fmt_eval.go:150 | each rune counts the fewest UTF-8 bytes that hold it |
| WrapWords.WrapIsLosslessAndValid | internal/cli/fmt_eval.go:145-163 | joined lines are the joined fields, and each line is within the width or one word |
| WrapWords.WrapTwice | internal/cli/fmt_eval.go:146-163 | wrapping its own joined output changes nothing |
| WrapWords.WrapIsShortest | internal/cli/fmt_eval.go:146-163 | no valid breaking of the same words has fewer lines |
| WrapWords.GreedyStaysAhead | internal/cli/fmt_eval.go:149-158 | the exchange argument: greedy is never a line behind another breaking |
| WrapWords.RunesAgreeExactly | internal/cli/fmt_eval.go:145-163 | the lines are those of the rune count if and only if each of these fits in bytes or is one word |
| WrapWords.RunesCanFitOneLine | internal/cli/fmt_eval.go:145-153 | counted in runes the result need not be shortest |
| Refresh.Menubar.StartRead | apps/menubar/main.go:385-400 | the state after a read starts and the view it emits, if any |
| Refresh.Menubar.FinishRead | apps/menubar/main.go:338-369 | the state, the view and what the alerter is given after a read completes |
| Refresh.Menubar.AcceptRefresh | apps/menubar/main.go:413-418 | the state after the daemon answered a refresh |
| Refresh.Menubar.EndRefresh | apps/menubar/main.go:429-434 | the state after the last follow-up ends the refresh |
| RefreshProtocol.RunKeepsInv | apps/menubar/main.go:335-440 | every step of every interleaving keeps the protocol's invariant |
| RefreshProtocol.ReadsAreCounted | apps/menubar/main.go:150-153 | the counter is the number of reads in flight and never negative |
| RefreshProtocol.OnlyTheFirstReadAnnounces | apps/menubar/main.go:382-400 | a starting read emits exactly when no other is in flight, over the kept reading |
| RefreshProtocol.LoadingMarksOverlap | apps/menubar/main.go:339-342 | a completed read is marked as loading exactly when another is in flight |
| RefreshProtocol.OnlyGoodReadingsAreKept | apps/menubar/main.go:343-363 | the kept reading is the last good one, each good reading feeds the alerter once, and every failed read shows the kept glance unless there is no daemon or none is kept |
| RefreshProtocol.RefreshingEnds | apps/menubar/main.go:410-440 | with no follow-up outstanding nothing is shown as refreshing |
| RefreshProtocol.RefreshingExactly | apps/menubar/main.go:410-440 | over any run the mark agrees with the refreshes outstanding at every point if and only if no ending or declined answer leaves another outstanding |
| RefreshProtocol.MarkIsRightWhen | apps/menubar/main.go:410-440 | at any one point it agrees exactly when the latest answer or ending asked for a poll or nothing is outstanding |
| RefreshMarks.FollowUpsAreThree | apps/menubar/main.go:404-440 | a refresh whose poll was asked for reads four times, ends after exactly three and is over after the fourth |
| RefreshMarks.ViewsShowTheirMarks | apps/menubar/main.go:359-398 | over any run every view shows the latest note while it lasts, the latest pin and the refreshing mark |
| RefreshProtocol.AnEndingHidesALaterRefresh | apps/menubar/main.go:429-434 | a run in which the flag is down while a refresh is outstanding |
| RefreshProtocol.TurnsNeverGoBack | apps/menubar/main.go:335-363 | with a daemon whose computations advance, reads that do not overlap never replace the kept glance with an older one |
| RefreshProtocol.GoesBackExactly | apps/menubar/main.go:335-363 | a read in flight can do so exactly when the kept glance was computed after what the daemon had as that read began |
| RefreshProtocol.OverlapCanGoBack | apps/menubar/main.go:335-363 | a run in which the read that began first completes last with the older glance, and the alerter gets them in that order |
| RefreshProtocol.TurnsFeedInOrder | apps/menubar/main.go:360-363 | with a daemon whose computations advance, reads that do not overlap feed the alerter in the order the glances were computed |
| AlertOrder.OverlapAnnouncesAFalseReset | apps/menubar/alerts.go:43-70 | of a window whose usage only rose, overlapping reads can make the alerter announce a reset where it should have warned |
| RefreshProtocol.LoadingSinceIsTheBusyStart | apps/menubar/main.go:93-95 | the start shown never postdates a read in flight, and is its own exactly for the read that broke the idleness |
| RefreshProtocol.LoadingSinceCanPredateEveryRead | apps/menubar/main.go:93-95 | a run in which the start shown is earlier than every read in flight |
| Alerts.Alerter.Reading | apps/menubar/alerts.go:75-100 | the plan's step and note |
| Alerts.Alerter.Observe | apps/menubar/alerts.go:43-70 | the steps and notes after a glance, quiet until primed |
| Alerts.ListMeasures | apps/menubar/alerts.go:104-128 | the measures are those of the live windows and windowless spends |
| AlertMeasures.EveryFigureIsMeasured | apps/menubar/alerts.go:104-128 | every live window and windowless spend of every plan is measured under its own key with its own figure |
| AlertMeasures.FiguresAreInOrder | apps/menubar/alerts.go:104-128 | in the order of the plans and their windows |
| AlertMeasures.EveryMeasureIsAFigure | apps/menubar/alerts.go:104-128 | and nothing else is |
| AlertMeasures.FigureIsObserved | apps/menubar/alerts.go:54-69 | after a glance the step at a figure's own key is that figure's, a rise is warned of with it, a return to none is a reset, and no more is said |
| AlertMeasures.ReadingIsObserved | apps/menubar/alerts.go:75-100 | after a glance a plan is remembered as stopped if and only if all its windows are stale, and exactly the change is said |
| AlertRuns.RunIsObserved | apps/menubar/alerts.go:43-70 | a run of glances is one observation after another |
| AlertRuns.StepIsConserved | apps/menubar/alerts.go:57-69 | steps are conserved: what rises was warned of and what falls is bounded |
| AlertRuns.ResetsFollowWarnings | apps/menubar/alerts.go:57-67 | resets and warnings alternate up to the starting state |
| AlertRuns.WarningsAreBounded | apps/menubar/alerts.go:57-69 | per window, at most three warnings for each fall plus the first three, and resets at most one ahead |
| AlertRuns.RisingUsageWarnsAtMostThrice | apps/menubar/alerts.go:57-69 | while a window's figures never fall it warns at most once for each step left and never resets |
| AlertRuns.FreshRun | apps/menubar/alerts.go:24-32 | the priming reading is quiet, and a reset ahead of warnings needs it to have been past a step |
| AlertRuns.StaleWindowsAreSilent | apps/menubar/alerts.go:108-113 | a stale window neither changes its step nor emits |
| AlertRuns.ReadingKeysStandApart | apps/menubar/alerts.go:85-124 | a slash-free provider's reading key is no usage key and names one provider |
| AlertRuns.SlashedProviderCollides | apps/menubar/alerts.go:85-117 | a provider's reading key is some window's key if and only if the provider has a slash |
| AlertRuns.PlanReadingsAlternate | apps/menubar/alerts.go:72-100 | each plan's stopped and back notes strictly alternate and none is missed |
| Glance.CountSteps | apps/menubar/alerts.go:131-139 | the loop counts the alert steps crossed |
| Glance.StepOfExactly | apps/menubar/alerts.go:16-18 | the shares used at which each step is crossed |
| Gauge.MeasureReport | apps/menubar/status.go:144-169 | the plan's running best, or its spend |
| Gauge.PickStatus | apps/menubar/status.go:102-140 | the loop picks the tightest or the pinned plan |
| Gauge.ReportIsLargest | apps/menubar/status.go:150-167 | a plan is measured by its largest figure, and staleness is that of the last window holding it |
| Gauge.GaugeIsTheLowest | apps/menubar/status.go:95-140 | unpinned and fresh, the gauge is the lowest level over all figures, unknown exactly without figures |
| Gauge.GaugeIsTheTightestPlan | apps/menubar/status.go:95-140 | unpinned and fresh, the gauge is the minimum of the plans' own gauges |
| Gauge.PinOverrides | apps/menubar/status.go:97-134 | a pin wins whenever its provider has a reading and otherwise changes nothing |
| Gauge.PinnedIsLast | apps/menubar/status.go:126-128 | of several readings of the pinned provider the last is shown |
| Gauge.TitleExactly | apps/menubar/status.go:102-140 | when the icon is titled with a dash, the app's name or a plan |
| Gauge.EmptyAndFullAreExact | apps/menubar/status.go:207-223 | level 0 exactly when the alerts say used up, level 8 exactly when nothing is used |
| Gauge.LevelRoundsUp | apps/menubar/status.go:207-223 | any headroom rounds up to an eighth and stops one short of full |
| Gauge.LevelFalls | apps/menubar/status.go:211-223 | more used is never a fuller gauge |
| Gauge.UnknownExactly | apps/menubar/status.go:102-140 | unpinned, the gauge is unknown exactly without any reading, or when the first tightest plan's last busiest window is stale |
| TrayIcon.DrawTrayIcon | apps/menubar/status.go:246-262 | every pixel of the drawn image has the alpha of its samples |
| TrayIcon.FullerIsDarker | apps/menubar/status.go:227-262 | no pixel gets lighter as the level rises, and all stay in the byte range |
| TrayIcon.OutlineIsConstant | apps/menubar/status.go:227-262 | a pixel on the outline or beyond the tank has the same alpha at every level, unknown included, and is solid on the outline |
| TrayIcon.OutlineShows | apps/menubar/status.go:227-262 | at every level the ring is solid and clear on either side |
| TrayIcon.PixelIsTheMean | apps/menubar/status.go:246-262 | a pixel is the mean of its sixteen samples at the nearest alpha |
| TrayIcon.EachStepShows | apps/menubar/status.go:200-202 | each level blackens a pixel the level below leaves clear |
| TrayIcon.IconTellsLevelsApart | apps/menubar/status.go:200-242 | the ten states have ten different icons |
| Wizard.Asker.ReadAnswer | internal/cli/init_wizard.go:55-67 | one trimmed line, or the end of input recorded |
| Wizard.Asker.AskChoice | internal/cli/init_wizard.go:69-111 | the retry loop terminates with the choice of the remaining input |
| Wizard.Asker.AskAmount | internal/cli/init_wizard.go:113-130 | the retry loop terminates with the amount of the remaining input |
| Wizard.Asker.AskConfirm | internal/cli/init_wizard.go:132-155 | yes, no or the default, and no at the end of input |
| Wizard.Asker.OfferDaemon | internal/cli/init_wizard.go:224-238 | how often the daemon is installed and what is read |
| Wizard.ChoiceIsInRange | internal/cli/init_wizard.go:69-111 | the index is in range or the skip, and is what was typed |
| Wizard.AmountEnds | internal/cli/init_wizard.go:113-130 | an amount is never negative and is zero or the number typed last |
| Wizard.DaemonNeedsAnAnswer | internal/cli/init_wizard.go:224-238 | at most one install, and only on a line read that says yes |
| Wizard.ConfirmReads | internal/cli/init_wizard.go:132-155 | over the text typed: y or yes in any case is yes, a blank line the default, any other line no, and one line is read |
| Wizard.DaemonReads | internal/cli/init_wizard.go:224-238 | over the text typed: one install exactly when a step asks for it by hand and the line is yes or blank |
| Wizard.ChooseReads | internal/cli/init_wizard.go:69-111 | over the text typed: a number in range is that option, a blank line the default, any other line is asked again |
| Wizard.AmountReads | internal/cli/init_wizard.go:113-130 | over the text typed: without a leading dollar sign and with points for commas, a positive number is the amount |
| Wizard.EndOfInputIsNoAnswer | internal/cli/init_wizard.go:34-36 | a question that ends with the input closed has the unasked default |
| Wizard.EveryQuestionProgresses | internal/cli/init_wizard.go:55-67 | every question put to an open input takes a line or finds the end |
| Wizard.NoConsentAfterTheEnd | internal/cli/init_wizard.go:34-36 | over any run of questions, once input has ended every answer is the unasked default |
| ClaudeHome.ManagedFiles | internal/claudehome/claudehome.go:86-102 | the reverse loop lists the merge order backwards, visible files only |
| ClaudeHome.ManagedFilesExactly | internal/claudehome/claudehome.go:86-102 | exactly the drop-ins that are there and not hidden, from the last to the first, and then the base file |
| ClaudeHome.Resolve | internal/claudehome/claudehome.go:56-70 | environment, then the merged managed settings, then the user's file, then the default |
| ClaudeHome.ResolvesTo | internal/claudehome/claudehome.go:48-70 | by the files alone: the environment, else the last drop-in that sets the variable, else the base file, else the user's file, else the directory under home |
| ClaudeHome.ScanIsMerge | internal/claudehome/claudehome.go:60-64 | the first hit from the top is what a last-wins merge of non-empty values leaves |
| ClaudeHome.ScanIsPlainMergeExactly | internal/claudehome/claudehome.go:86-88 | it is the plain merge's value exactly when the last file to set the key sets it to something, or none does |
| RulesRoot.FindRepoRoot | internal/cli/rulesroot.go:81-93 | the ancestor walk |
| RulesRoot.RepoRootIsNearest | internal/cli/rulesroot.go:81-93 | the repository found is the nearest at or above the start |
| RulesRoot.UnscannableIsTooBroad | internal/cli/rulesroot.go:95-113 | the refusal covers exactly the filesystem root and directories at or above home |
| RulesRoot.Resolve | internal/cli/rulesroot.go:54-79 | the decision with its overrides |
| RulesRoot.ScansTheProject | internal/cli/rulesroot.go:42-79 | off exactly at a root or at or above home; otherwise the nearest scannable repository or the working directory |

## Left out

- Reading, backing up and atomically writing the hook files, dry runs, and the opencode plugin: files and a renderer that is not part of this model.
- The top-level `version` key of a Cursor file: an install sets it and an uninstall leaves it; `CursorHooks` models the hook map under it.
- JSON text: entries are compared as trees, which `json.Marshal` of decoded values also does unless a string holds invalid UTF-8.
- HookRestore.FullUninstallRestoresTheFile: assumes a "hooks" value that is absent or a non-empty object, because an empty one is deleted by the uninstall; `FullUninstallRestoresExactly` says exactly when the file comes back once an install has run last.
- HookOwned.NeverTwice: starts from a file with nothing of ours, because an entry of ours left twice by hand is only updated in its first place.
- CommandLine.ShellReadsQuotedPathExactly: the reader stops at the pattern characters `*`, `?` and `[`, whose effect depends on the files there are, and at double quotes outside single ones, which nothing here prints; aliases and reserved words are not modelled.
- `strings.EqualFold` on event and client names: the names compared are the fixed ones of the specs and clients.
- JsonPointer: the machine bounds of `strconv.Atoi`, past which an index is an error either way.
- WrapWords: strings that are not valid UTF-8.
- Refresh: when follow-ups happen and the reads of coach, findings, boundaries and costs, which a reading's view carries along; `read` is any view it could return.
- RefreshProtocol.TurnsNeverGoBack: takes a daemon that never answers with an older computation than before, as does `GoesBackExactly`; one that restarts from a saved answer may.
- RefreshProtocol.LoadingSinceIsTheBusyStart: the clock moves on at every step, so no two reads start at one instant; with equal instants a later read could share the start shown.
- Alerts: the wording of notes, the pace that only chooses words, and the setting that decides whether notes are delivered.
- Gauge: the tooltip lines; NaN and rounding of floating-point figures.
- TrayIcon: PNG encoding and the colour channels, which are black throughout.
- Wizard: the printed prompts, `plans` and `preset` over packages that are not part of this model, and number parsing, which is a parameter.
- ClaudeHome: globbing and sorting of the drop-ins, whose ascending listing is a parameter; path cleaning by `filepath.Join`; `SettingsFiles`, which appends one path.
- RulesRoot: Windows volumes and relative working directories.
- The commands, flags and text rendering around all of this: presentation only.
