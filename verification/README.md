# Verified model of the proxy-core manager

This project models the parts of `src-tui` that change shared state in steps and must survive
failure, together with the transformers and codecs those steps rely on, and proves what they keep.
`dafny verify dfyconfig.toml` checks all of it.

| File | Part of the system |
|---|---|
| `RuntimeLock.dfy` | profile commits, mode switches and TUN changes under one lock, interleaved and cancelled at every await |
| `RuntimeTransaction.dfy` | the staged runtime file: install, commit, rollback, drop; the sing-box apply and the mihomo commit |
| `SysProxy.dfy` | the desktop-proxy lifecycle over the GNOME and KDE stores and the snapshot marker |
| `InstallProtocol.dfy` | publication of managed binaries and their receipts by any number of interleaved installs |
| `CoreInspection.dfy` | candidate inspection, installation and acquisition of a core |
| `ControlPlane.dfy` | the control plane, and the composition of a profile with arbitrary hooks under the app's authority |
| `DeepMerge.dfy`, `SequenceFragment.dfy`, `DialerChain.dfy` | merges, list patches and dialer chains on the configuration, in place |
| `ProfileScript.dfy` | the budget, depth and cycle checks around a user script |
| `ClashRule.dfy`, `SingboxRule.dfy` (types in `RouteRule.dfy`) | the two rule codecs |
| `SecretLine.dfy`, `ControllerSecret.dfy` | the byte-preserving secret rewriter and the resolver built on it |
| `CorePolicy.dfy` | version parsing, SemVer precedence and the acceptance decision |
| `Askpass.dfy` | the UTF-8 edit buffer of the password prompt |
| `Wrappers.dfy`, `Yaml.dfy`, `Text.dfy` | options and results, configuration trees, the string operations of the Rust standard library |

How things are modelled. Configuration values are finite trees and mappings have no key order; loops
over a mapping pick keys in any order. Files are maps from names to contents. Each I/O operation,
process, controller call and clock is a parameter that says how it ended, and an `async` operation may
be cancelled at each await. Hashing, YAML and JSON text, version probes, geo-name classification and
user scripts are function parameters about which only what is stated is assumed. What is updated in
place in the source is a class field or an array here, and every such method is proved equal to a
function or to an outright description of the new state; the laws are lemmas about those functions.

Results where the code differs from what one would expect:

- **A late rename can undo a commit.** A mode switch saves through `tokio::fs::rename`
  (`crates/clash-verge-core/src/utils/help.rs:90-100`), which goes on after its awaiting caller is
  cancelled, while the lock guard is dropped at once. The file is in lock order as long as such a
  rename lands before anybody takes the lock again (`RuntimeLock.LockOrder`). On a free lock it is so
  exactly when the configuration the cancelled switch had loaded and the current one agree beyond the
  mode (`RuntimeLock.LockOrderExactly`). Under another holder the landed switch is overwritten, or
  overwrites the holder's change (`RuntimeLock.HolderOverwritesLanding`,
  `RuntimeLock.LandingOverwritesHolder`). `RuntimeLock.LateRenameLosesCommit` is a run in which a
  committed profile is lost.
- **A moved endpoint can leave the desktop at a dead port.** The doc comment of `sys_proxy.rs` says the
  desktop is never left pointing at one. With a single endpoint that holds
  (`SysProxy.NeverLeftPointing`); in general it holds exactly when the stored snapshot does not point at
  the recorded endpoint (`SysProxy.ReleasedPointsExactly`), and `SysProxy.MovedEndpointLeftPointing` is
  the case where it does.
- **GNOME is not restored for a host with a single quote.** Ownership is recognised by comparing
  with the text of `gvariant_string`, which escapes the quote; `gsettings` prints such a string in
  double quotes. A printable host is recognised exactly if it has no single quote
  (`SysProxy.RecognisedExactly`), and with one the release leaves GNOME in manual mode
  (`SysProxy.QuotedHostStaysManual`, and `SysProxy.QuotedHostExample` at a concrete host).
- **A carriage return before the colon hides a second `secret` line** from the layout check, which trims
  only spaces and tabs, while the rewriter trims carriage returns too
  (`ControllerSecret.StrayCrHidesSecretLine`). `ControllerSecret.AcceptedHasOneSecretLine` says
  exactly when an accepted layout has more than one line to replace. The rewrite is still verified
  against the parsed document.
- **`Version::parse` refuses some valid versions**: exactly those whose text, build metadata
  included, ends in a hyphen (`CorePolicy.RenderParses`; `CorePolicy.HyphenIsRefused` has two). And it
  accepts a release with a hyphen before the plus of its build metadata, which the grammar does not
  allow (`CorePolicy.ParseExactly`).
- **An update can end in a review.** A download writes the receipt of every sibling with the payload's
  digest. An unreceipted sibling with that digest and other bytes, whose version is refused, would
  then be trusted and reviewed; `CoreInspection.AcquiredIsReady` shows that nothing else can.
- **The two deep merges differ** on overlays with an empty nested mapping, and only on those
  (`DeepMerge.MergesAgreeExactly`).

## Model

| member | source | states |
|---|---|---|
| RuntimeLock.LockOrder | src-tui/src/runtime_config.rs:809-861 | over every interleaving of any number of profile, mode and TUN tasks, with failure or cancellation at any await, the file equals the committed operations applied one after another, in the order of the lock's turns, whenever the lock is free; a rename that outlives its task must land before anybody takes the lock again, and then finds the lock free |
| RuntimeLock.LockOrderExactly | src-tui/src/services/mode.rs:32-41 | over every run whose left-over renames land on a free lock, the file is serial whenever the lock is free if and only if each of them lands on a configuration that agrees beyond the mode with the one its task had loaded |
| RuntimeLock.UncommittedLeaveNoTrace | src-tui/src/runtime_config.rs:831-861 | a profile commit that failed, rolled back or was cancelled before committing contributes nothing; one that committed contributes exactly one operation, its own build |
| RuntimeLock.StepSerialised | src-tui/src/services/tun.rs:16-32 | every single step, of a TUN change as of the others, keeps the file serial and the lock with its holder, short of a harmful late rename |
| RuntimeLock.TunPass | src-tui/src/services/tun.rs:16-32 | a TUN change over a free lock leaves the file rebuilt from what is there, as one entry |
| RuntimeLock.ModeTasksRevert | src-tui/src/services/mode.rs:29-52 | a mode task only ever writes the mode asked for or the mode in force just before its own switch |
| RuntimeLock.ModeTaskEnds | src-tui/src/services/mode.rs:29-52 | over every run, whatever others commit in between, a mode task that ended without a cancellation or disk error on a running core made its live update exactly once and logged its switch, and after a failed update also the put-back; on a stopped core it logged its switch alone |
| RuntimeLock.ModePass | src-tui/src/services/mode.rs:32-41 | a pass over a free lock changes the key `mode` alone, logs one entry, and after a first pass on a running core leaves the live update due with the mode that was in force |
| RuntimeLock.FailedUpdateIsPutBack | src-tui/src/services/mode.rs:42-50 | after a failed live update the next pass puts the earlier mode into the current file, as one entry; a successful update writes and logs nothing |
| RuntimeLock.PutBackLeavesTheRest | src-tui/src/services/mode.rs:42-50 | a write of a mode task that is not its own switch changes the key `mode` alone, to the mode before the switch, whatever was committed in between; `ModeTaskEnds` says that it happens |
| RuntimeLock.LandingExactly | crates/clash-verge-core/src/utils/help.rs:90-100 | when nobody is between reading the file and committing, a left-over rename keeps the file serial if and only if the configuration its task loaded and the current one agree on every key but `mode` |
| RuntimeLock.HolderOverwritesLanding | crates/clash-verge-core/src/utils/help.rs:90-100 | a rename landing after another holder has read the file is overwritten when that holder commits; the file is then serial if and only if the holder's operation gives the same file with and without the switch |
| RuntimeLock.LandingOverwritesHolder | src-tui/src/runtime_config.rs:834-858 | a rename landing between a commit's write and its end replaces what was written if it commits, and is gone if it rolls back |
| RuntimeLock.CommitEndsAsSteps | src-tui/src/runtime_config.rs:809-861 | every ending of the sequential commit is a run of one task's steps with the same file, the lock free again, and an entry exactly if it committed |
| RuntimeLock.WrittenEndsAsBefore | src-tui/src/runtime_config.rs:385-441 | a written commit ends the same way, without a trace, whether it rolls back or is dropped |
| RuntimeLock.LateRenameLosesCommit | src-tui/src/services/mode.rs:32-41 | a run in which a rename that outlives its cancelled task overwrites a committed profile |
| RuntimeTransaction.RuntimeCandidate.Install | src-tui/src/runtime_config.rs:401-406 | the candidate replaces the formal file and is gone, or nothing changes |
| RuntimeTransaction.RuntimeCandidate.Rollback | src-tui/src/runtime_config.rs:410-431 | an installed candidate gives way to the previous bytes or absence; a failed rollback stays pending |
| RuntimeTransaction.RuntimeCandidate.Drop | src-tui/src/runtime_config.rs:434-441 | what is still installed is rolled back, the candidate is removed, no other file changes |
| RuntimeTransaction.UncommittedDropRestores | src-tui/src/runtime_config.rs:383-441 | after any number of installs and rollbacks, failed ones included, dropping an uncommitted transaction leaves the directory as it was, without the candidate |
| RuntimeTransaction.Manager.ApplySingboxRestart | src-tui/src/runtime_config.rs:82-252 | applied if and only if the candidate is assembled, its binary found, accepted and installed, a running core is authorized and started, and no await that is reached cancels; exactly when it fails or is dropped, and when the core is restarted once or twice; the file is the validated candidate or the previous one; a stopped core is never started; a failure keeps or restores service; DNS and degradation are recorded for committed candidates only |
| RuntimeTransaction.Manager.AssembleAndInstall | src-tui/src/runtime_config.rs:146-181 | a candidate is installed exactly if it was generated, its binary found and it was accepted, with no cancellation on the way; otherwise the directory is as before |
| RuntimeTransaction.Manager.RestartOnInstalled | src-tui/src/runtime_config.rs:202-232 | the restart on the candidate and the recovery: how it ends, which file the core ends up serving, how often it is restarted and with what file on disk |
| RuntimeTransaction.Manager.Recover | src-tui/src/runtime_config.rs:203-225 | after a failed restart the previous file is back, and the one restart on it happens exactly when the rollback succeeded and there was a previous file |
| RuntimeTransaction.Controller.CommitRuntimeConfig | src-tui/src/runtime_config.rs:809-861 | applied if and only if the file is built, written and, on a running core, loaded, and no await that is reached cancels; exactly when it fails or is dropped; a commit leaves the rendered file, anything else the previous one; the second reload is of the restored file |
| SysProxy.Desktop.EnableWith | src-tui/src/sys_proxy.rs:456-491 | the stores and marker after an enable, for every earlier marker; it fails exactly without a backend |
| SysProxy.Desktop.DisableWith | src-tui/src/sys_proxy.rs:493-508 | both backends restored from what the marker holds and the marker removed, which `DisableRestores` shows to be the original settings; it fails exactly without a backend |
| SysProxy.Desktop.ReleaseWith | src-tui/src/sys_proxy.rs:516-538 | a release that does not act changes nothing; one that acts writes only backends that point at the recorded endpoint and removes the marker |
| SysProxy.Desktop.RestoreGnome | src-tui/src/sys_proxy.rs:346-361 | the loop writes back every stored entry and the mode last, whatever the order of the entries |
| SysProxy.Desktop.RestoreKde | src-tui/src/sys_proxy.rs:424-438 | the loop writes back every key, with the defaults for missing ones and `0` for an unset type |
| SysProxy.Desktop.ApplyGnome | src-tui/src/sys_proxy.rs:330-344 | the eight writes in order, the mode last |
| SysProxy.Desktop.ApplyKde | src-tui/src/sys_proxy.rs:413-422 | the five writes in order, the type last |
| SysProxy.Desktop.TakeGnome | src-tui/src/sys_proxy.rs:323-328 | the snapshot holds exactly the readable GNOME keys with their values |
| SysProxy.Desktop.TakeKde | src-tui/src/sys_proxy.rs:406-411 | the snapshot holds every KDE key, empty for an unset one |
| SysProxy.AppliedPoints | src-tui/src/sys_proxy.rs:317-344 | after an apply, KDE is recognised as ours always, GNOME if and only if the tool prints the host as expected |
| SysProxy.AppliedPublishes | src-tui/src/sys_proxy.rs:330-422 | after an apply every protocol of the backend has the endpoint's host and port, spelled out, and the bypass list is published |
| SysProxy.BypassReadsBack | src-tui/src/sys_proxy.rs:290-298 | the bypass list reads back from the text written for GNOME, and for KDE when no entry holds a comma |
| SysProxy.PointsAtOne | src-tui/src/sys_proxy.rs:317-404 | a store points at one endpoint at most |
| SysProxy.SwitchedLast | src-tui/src/sys_proxy.rs:336-343 | until its last write an apply has not switched the backend over, so no half-written proxy comes into use |
| SysProxy.RestoreUndoes | src-tui/src/sys_proxy.rs:346-438 | restoring the snapshot of a store puts the store back, an unset KDE type as `0` |
| SysProxy.AttemptsKeepOriginal | src-tui/src/sys_proxy.rs:463-482 | through any enables with changing endpoints, finished or cut short, the marker keeps the settings from before the first |
| SysProxy.ReleaseRestores | src-tui/src/sys_proxy.rs:456-538 | after any enables with changing endpoints and any fallback, a release puts every GNOME and KDE key back and removes the marker when the last host is recognised; otherwise GNOME stays in manual mode with our values, and the marker goes only if KDE is there |
| SysProxy.DisableRestores | src-tui/src/sys_proxy.rs:456-508 | from the first of any enables on, finished or cut short, at any endpoints and with any edits in between, a disable puts every backend in use back as it was before and removes the marker, recognised host or not |
| SysProxy.DisableSwitchesOff | src-tui/src/sys_proxy.rs:346-438 | with nothing stored a disable switches GNOME to its off mode and KDE to type `0` and changes no other key |
| SysProxy.FallbackCounts | src-tui/src/sys_proxy.rs:510-538 | the fallback decides exactly when the marker records no endpoint |
| SysProxy.AbsentIsLeftAlone | src-tui/src/sys_proxy.rs:302-376 | a backend without its tool, or GNOME without its schema, is never written, and without both nothing changes |
| SysProxy.RecognisedExactly | src-tui/src/sys_proxy.rs:290-321 | a printable host that the tool stores as given is recognised if and only if it has no single quote |
| SysProxy.QuotedHostStaysManual | src-tui/src/sys_proxy.rs:516-538 | with a quoted host, a release leaves GNOME in manual mode as the enable left it, and without KDE does not act at all |
| SysProxy.QuotedHostExample | src-tui/src/sys_proxy.rs:290-292 | the same at a concrete host, with tools that satisfy everything assumed of them |
| SysProxy.StoredStays | src-tui/src/sys_proxy.rs:463-482 | in every run with user edits and disables, a stored snapshot does not change while the marker exists |
| SysProxy.Provenance | src-tui/src/sys_proxy.rs:463-482 | every stored snapshot was taken by an enable at a moment when its backend pointed neither at the endpoint being applied nor at the one applied last |
| SysProxy.ReleasedPointsExactly | src-tui/src/sys_proxy.rs:510-538 | after a release that acts, a backend points at the recorded endpoint if and only if it did before and its stored snapshot does |
| SysProxy.NeverLeftPointing | src-tui/src/sys_proxy.rs:7-14 | with one endpoint throughout, after a release that acts no backend points at it, whatever the user edited |
| SysProxy.MovedEndpointLeftPointing | src-tui/src/sys_proxy.rs:463-490 | two enables with different endpoints after which a release leaves KDE at the second one |
| InstallProtocol.StepOnBinary | src-tui/src/mihomo_manager/binary.rs:746-788 | a step leaves a binary's file alone or replaces it by one install's whole payload |
| InstallProtocol.OldOrWhole | src-tui/src/mihomo_manager/binary.rs:746-788 | at every point of every run of any number of installs, stopped anywhere, a destination holds its file from the start or the whole payload of an install to it |
| InstallProtocol.ReceiptNamesDigest | src-tui/src/mihomo_manager/binary.rs:593-595 | the qualified receipt's name ends in its digest and is never a binary's name |
| InstallProtocol.ReceiptsBeside | src-tui/src/mihomo_manager/binary.rs:577-595 | the two receipt names, spelled out from the binary's name |
| InstallProtocol.LegacyNamesNoReceipt | src-tui/src/mihomo_manager/binary.rs:577-584 | the legacy receipt is neither a qualified receipt nor a binary, so installs never replace it |
| InstallProtocol.VerifiedExactly | src-tui/src/mihomo_manager/binary.rs:562-584 | a managed file verifies if and only if it exists and the receipt named after its digest holds that digest, or that receipt is absent and the legacy one holds the same 64 digits in either case |
| InstallProtocol.AcceptsExactly | src-tui/src/mihomo_manager/binary.rs:562-584 | the same for what a reader read, whenever it read it |
| InstallProtocol.ReceiptStays | src-tui/src/mihomo_manager/binary.rs:597-616 | a receipt on disk is never changed to anything but the whole text for its digest |
| InstallProtocol.StepKeepsVerified | src-tui/src/mihomo_manager/binary.rs:562-616 | a file that verifies, by either kind of receipt, still verifies after any step of any install |
| InstallProtocol.StaysVerified | src-tui/src/mihomo_manager/binary.rs:562-616 | the same over whole runs |
| InstallProtocol.LockFreeReaderAccepts | src-tui/src/mihomo_manager/binary.rs:562-584 | a reader without the lock, whose three reads are separated by any steps, finds receipts that name the digest of what it read if the file verified at the start |
| CoreInspection.CandidatesAreBinaries | src-tui/src/mihomo_manager/binary.rs:87-116 | no candidate of either core is named like a receipt |
| CoreInspection.ListSiblings | src-tui/src/mihomo_manager/binary.rs:92-116 | exactly the siblings with a valid identifier, in ascending order |
| CoreInspection.InspectPlaces | src-tui/src/mihomo_manager/binary.rs:138-236 | the loop selects: any refused candidate means review, else the first that fits is ready, else an update with the first older version observed |
| CoreInspection.InspectCandidates | src-tui/src/mihomo_manager/binary.rs:133-236 | the same for system candidates, the pinned version, its siblings and the plain name, each examined on disk |
| CoreInspection.FindingExactly | src-tui/src/mihomo_manager/binary.rs:138-219 | a candidate fits, is older, or is refused exactly as its reported version is a release of the pinned major from the pin on, one before it, or anything else that parses, given an executable ELF file and, if managed, receipts that name its digest |
| CoreInspection.OutcomeExactly | src-tui/src/mihomo_manager/binary.rs:133-236 | an inspection asks for a review if and only if a candidate is refused, and is ready if and only if none is and one fits |
| CoreInspection.OfferedIsPreferred | src-tui/src/mihomo_manager/binary.rs:87-116 | what is offered is preferred to every other candidate that fits: system binaries in order, the pinned version, siblings in ascending order, the plain name |
| CoreInspection.ReviewListsRefused | src-tui/src/mihomo_manager/binary.rs:133-236 | a review lists exactly the refused candidates |
| CoreInspection.PreparedIsSound | src-tui/src/mihomo_manager/binary.rs:151-186 | a core that inspection offers is an executable ELF file of a compatible version, and a managed one has a receipt on disk that names its digest |
| CoreInspection.UnreceiptedIsNeverOffered | src-tui/src/mihomo_manager/binary.rs:151-186 | a managed binary without receipts, or with another file's receipt text in their places, is never offered |
| CoreInspection.Storage.WriteDigestReceipt | src-tui/src/mihomo_manager/binary.rs:600-616 | the receipt is whole in place, or nothing changed |
| CoreInspection.Storage.InstallVerifiedPayload | src-tui/src/mihomo_manager/binary.rs:746-788 | success exactly for a payload that passes every check and is not stopped, with receipt and executable in place; otherwise the directory is as before, up to a receipt exactly if it stopped after writing it |
| CoreInspection.PublishableExactly | src-tui/src/mihomo_manager/binary.rs:746-788 | an install of the pinned target publishes exactly the ELF payloads within the limit that report the pinned version, with or without its `v` |
| CoreInspection.PinnedIsUsable | src-tui/src/mihomo_manager/core_policy.rs:5-6 | both pinned targets parse, with and without the `v`, as 1.19.32 and 1.14.2, and are usable |
| CoreInspection.InstallFollowsProtocol | src-tui/src/mihomo_manager/binary.rs:746-788 | whatever the sequential installation leaves is reached by a run of the protocol |
| CoreInspection.Storage.Acquire | src-tui/src/mihomo_manager/binary.rs:350-402 | succeeds if and only if authorized, nothing is refused, and a candidate fits or the download can be published; downloads exactly when none fits, into a fresh destination; ready cores are returned untouched |
| CoreInspection.AcquireKeepsCandidates | src-tui/src/mihomo_manager/binary.rs:118-129 | the destination does not exist before, and no existing candidate of either core changes |
| CoreInspection.FitStays | src-tui/src/mihomo_manager/binary.rs:118-129 | a candidate that fits stays on disk and keeps fitting through any later acquisitions of either core |
| CoreInspection.AcquiredIsFound | src-tui/src/mihomo_manager/binary.rs:133-236 | after a successful download no inspection of that core asks for an update again, whatever acquisitions of either core follow and however they end |
| CoreInspection.RefusedAfterAll | src-tui/src/mihomo_manager/binary.rs:562-616 | after any acquisitions a candidate is refused if and only if one was before or an acquisition wrote the receipt of one that would be |
| CoreInspection.AcquiredIsReady | src-tui/src/mihomo_manager/binary.rs:350-402 | and every later inspection is ready if and only if none of the acquisitions wrote the receipt of an existing candidate that would be refused |
| Compose.ComposeProfileWithControls | src-tui/src/runtime_config.rs:586-692 | the loop over the step table equals its specification, for the loaded profile with its rules replaced if asked; what that returns is `ComposedIsTrace` and `AppKeepsControl` |
| Compose.ComposedIsTrace | src-tui/src/runtime_config.rs:616-674 | without app controls, the result of running the entries rules, proxies, groups, global merge, global script, profile merge, profile script one after another: an absent default is passed over, an absent configured UID, a wrong type, an unresolved item or a failing hook is an error, and the first error decides |
| Compose.TraceExists | src-tui/src/runtime_config.rs:616-674 | every composition has such a run of entries, so the two results above and below cover all of them |
| Compose.HooksRunInOrder | src-tui/src/runtime_config.rs:616-674 | seven items found under the UIDs, of their types and resolved, with hooks that succeed: the composition is the hooks applied one after another, the fourth to the pinned profile |
| Compose.PinnedIsTheApps | src-tui/src/runtime_config.rs:629-653 | the profile handed to the fourth entry has the app's control plane over everything else |
| Compose.AuthorityIsTheApps | src-tui/src/runtime_config.rs:629-674 | whatever the hooks do, the captured authority holds the app's control values |
| Compose.AppKeepsControl | src-tui/src/runtime_config.rs:586-692 | with app controls the same entries run, the fourth on the pinned profile; the first error decides, and otherwise every control key but `tun` has the app's value or absence, every app key of `tun` the app's value, and all else what the last entry made |
| ControlPlane.SnapshotControlPlane | src-tui/src/enhance/mod.rs:31-41 | exactly the control keys that are present |
| ControlPlane.EnforceControlPlane | src-tui/src/enhance/mod.rs:43-52 | control keys missing from the snapshot go, its values win, the rest stays |
| ControlPlane.EnforcedAgrees | src-tui/src/enhance/mod.rs:31-52 | enforcing an app's snapshot gives each control key the app's value and no other key, once or twice |
| DeepMerge.MergeMappingValues | src-tui/src/chain.rs:230-240 | the in-place merge equals the merge of the two values, in any key order; an empty nested mapping replaces |
| DeepMerge.MergeGuiValues | src-tui/src/chain.rs:242-250 | the same for the variant in which an empty nested mapping changes nothing |
| DeepMerge.MergedAtPath | src-tui/src/chain.rs:230-250 | at every path the overlay's value where it decides, the base's where it says nothing |
| DeepMerge.MergeIdempotent | src-tui/src/chain.rs:230-250 | merging an overlay twice is merging it once, for both merges |
| DeepMerge.MergesAgreeExactly | src-tui/src/chain.rs:230-250 | the two merges agree on every base if and only if the overlay has no empty nested mapping |
| SequenceFragment.ApplySequenceFragment | src-tui/src/chain.rs:98-184 | the configuration after a patch or replacement, in place |
| SequenceFragment.ReplaceSetsList | src-tui/src/chain.rs:98-109 | a replacement sets the list and touches no other key |
| SequenceFragment.PatchInOrder | src-tui/src/chain.rs:148-183 | the loop over the groups with its first-selector flag |
| SequenceFragment.PatchedList | src-tui/src/chain.rs:110-134 | prepend, then exactly the undeleted old entries in their order, then append |
| SequenceFragment.DeletedExactly | src-tui/src/chain.rs:110-134 | an entry is deleted if and only if it is, or is named by, a string in the delete list |
| SequenceFragment.PatchKeepsReferences | src-tui/src/chain.rs:110-184 | if every group member named a proxy, a group or a built-in, it still does after a patch of the proxies |
| SequenceFragment.FirstSelectorLists | src-tui/src/chain.rs:138-182 | the first selector lists every added name first and none twice; other groups gain nothing |
| SequenceFragment.MembersAfter | src-tui/src/chain.rs:153-182 | a patched group lists only added names and what it listed before, minus the deleted names |
| SequenceFragment.GroupExactly | src-tui/src/chain.rs:138-182 | a patched group keeps its other keys, and its members are exactly the undeleted old ones and, for the first selector, the added names |
| SequenceFragment.SelectorExactly | src-tui/src/chain.rs:160-170 | a selector is a group of type `select` or `selector`, in any case |
| DialerChain.BuildChainConfig | src-tui/src/chain.rs:542-572 | succeeds exactly for two or more configured nodes, rewrites each proxy to its dialed form, and changes nothing on error |
| DialerChain.Dialed | src-tui/src/chain.rs:556-569 | a proxy outside the chain is unchanged; inside it only the reference changes |
| DialerChain.DialsExactly | src-tui/src/chain.rs:542-572 | a chain node dials exactly the node before its first position; the entry dials nobody |
| DialerChain.WalksEndAtEntry | src-tui/src/chain.rs:542-572 | along every walk the first position strictly falls, and the walk stops at the entry and nowhere else |
| DialerChain.ConfiguredChainReachesEntry | src-tui/src/chain.rs:542-572 | over the list a successful call leaves, from the exit of a chain without repeats the walk passes every node |
| ProfileScript.CheckInput | src-tui/src/profile_script.rs:130-149 | accepts exactly trees within the budget and depth 128, and spends exactly their size |
| ProfileScript.CheckOutput | src-tui/src/profile_script.rs:151-182 | decides as its specification, and on acceptance the path set is back to what it was |
| ProfileScript.FiniteExactlyWhenAcyclic | src-tui/src/profile_script.rs:163-165 | a value unfolds to a finite tree if and only if no path from it meets an object twice |
| ProfileScript.PassedUnfolds | src-tui/src/profile_script.rs:151-182 | an accepted value unfolds to a tree within both limits, and the budget fell by its size |
| ProfileScript.UnfoldsPasses | src-tui/src/profile_script.rs:151-182 | a value that unfolds within both limits is accepted |
| ProfileScript.CheckAcceptsExactly | src-tui/src/profile_script.rs:151-182 | accepted if and only if acyclic, with no array over 200000 and no object of the current path on any path, and an unfolding that fits budget and depth 128; the budget then falls by exactly its size |
| ClashRule.SplitClashRule | src-tui/src/routing.rs:211-228 | the trimmed parts, divided into fields and modifiers by one loop |
| ClashRule.SplitKeepsAll | src-tui/src/routing.rs:211-228 | every part ends up among the fields or the modifiers |
| ClashRule.FromClash | src-tui/src/routing.rs:236-262 | a verbatim result prints back to the input; a parsed one has one mappable field; nothing parses to a logical rule |
| ClashRule.HeadersStandFor | src-tui/src/routing.rs:118-262 | which field and target each header, value and target stand for, and that any other header leaves the rule verbatim |
| ClashRule.HeaderReadsBack | src-tui/src/routing.rs:126-161 | every printed kind reads back as its field kind and is no pass-through header |
| ClashRule.ParsePrintParse | src-tui/src/routing.rs:211-283 | parsing, printing and parsing again gives the same rule for every string |
| ClashRule.ModifierDropped | src-tui/src/routing.rs:203-262 | `no-resolve` is dropped on either side of the target, and `IP-CIDR6` becomes the plain kind |
| ClashRule.LoadedInOrder | src-tui/src/routing.rs:680-692 | every string of the rules list is loaded in its place, and nothing else |
| ClashRule.LoadsAndSaves | src-tui/src/routing.rs:680-723 | loading reads the `rules` sequence, saving writes one text per rule there, and fails if and only if a rule is logical |
| ClashRule.LoadSaveReload | src-tui/src/routing.rs:673-723 | saving the rules just loaded succeeds, reloads to the same rules and changes no other key |
| SingboxRule.RuleObject.AddField | src-tui/src/routing.rs:293-328 | one field added in place, or the object unchanged |
| SingboxRule.ToSingboxJson | src-tui/src/routing.rs:384-414 | the JSON tree of a rule, nested ones included |
| SingboxRule.WrittenUnder | src-tui/src/routing.rs:293-414 | a written rule holds under every key exactly what its fields put there, in their order, geo sets as their tag or the private ranges, so that no condition is lost |
| SingboxRule.SucceedsExactly | src-tui/src/routing.rs:293-414 | conversion fails if and only if a verbatim rule or an unmappable geo set occurs anywhere in the tree |
| SingboxRule.FieldsReadExactly | src-tui/src/routing.rs:350-382 | exactly the fields whose array starts with their value are read |
| SingboxRule.ReadSucceedsExactly | src-tui/src/routing.rs:355-382 | fields are read unless the first port is no 16-bit number |
| SingboxRule.ReadIsCanonical | src-tui/src/routing.rs:355-432 | the reader only produces canonical rules |
| SingboxRule.WriteRead | src-tui/src/routing.rs:293-432 | a canonical rule, logical nesting included, is written and read back unchanged |
| SingboxRule.ReadWriteRead | src-tui/src/routing.rs:355-432 | every JSON rule tree the reader accepts is written again and reads back as the same rule |
| SingboxRule.SurvivesExactly | src-tui/src/routing.rs:293-432 | a rule survives being written and read if and only if it is canonical |
| SecretLine.LinesOfConcat | src-tui/src/enhance/mod.rs:554-587 | splitting into lines undoes joining them |
| SecretLine.RewriteSecretLineUnchecked | src-tui/src/enhance/mod.rs:554-587 | the loop with its `replaced` flag produces the rewritten text |
| SecretLine.EscapedReadsBack | src-tui/src/enhance/mod.rs:554-557 | the quoted text means the secret under section 7 of RFC 8259, whatever characters it has |
| SecretLine.RewrittenSays | src-tui/src/enhance/mod.rs:554-587 | the first root `secret` line says the new secret in its place and with its line ending; a file without one says it on a new last line |
| SecretLine.RewriteKeepsTheRest | src-tui/src/enhance/mod.rs:554-587 | every other line stays byte for byte and in order, up to one final line feed, and exactly one root `secret` line is left |
| SecretLine.RewriteTwice | src-tui/src/enhance/mod.rs:554-587 | rewriting with a second secret equals rewriting the original with it |
| ControllerSecret.SecretLayoutRefusal | src-tui/src/enhance/mod.rs:471-510 | the first line that forbids a rewrite, by one loop with a counter |
| ControllerSecret.AcceptedExactly | src-tui/src/enhance/mod.rs:471-510 | a layout is accepted if and only if no line is refused on its own and at most one is counted |
| ControllerSecret.SecretLinesAreJudged | src-tui/src/enhance/mod.rs:457-510 | quoted keys, repeated keys and missing, block, alias or anchor values are refused, any other value is counted |
| ControllerSecret.MarkersAreRefused | src-tui/src/enhance/mod.rs:471-510 | document markers, alone or with content, are refused |
| ControllerSecret.FlowRootsAreRefused | src-tui/src/enhance/mod.rs:471-510 | a root line that starts a flow collection is refused |
| ControllerSecret.PlaceholderExactly | src-tui/src/enhance/mod.rs:241-252 | a placeholder is whitespace alone or `set-your-secret` with any whitespace around it |
| ControllerSecret.RootSecretIsCounted | src-tui/src/enhance/mod.rs:471-510 | the layout check counts or refuses every line the rewriter takes for the secret, unless it is hidden by the different trimming of keys |
| ControllerSecret.CountedIsRootSecret | src-tui/src/enhance/mod.rs:471-567 | and counts no other line |
| ControllerSecret.AcceptedHasOneSecretLine | src-tui/src/enhance/mod.rs:471-587 | in an accepted layout the lines the rewriter replaces are the counted one and the hidden ones; there is at most one, and a rewrite drops no line, if and only if none is hidden, or a single one with nothing counted |
| ControllerSecret.StrayCrHidesSecretLine | src-tui/src/enhance/mod.rs:471-587 | an accepted layout with two such lines, because of a carriage return before the colon |
| ControllerSecret.ConfigFile.ResolveControllerSecret | src-tui/src/enhance/mod.rs:380-453 | the secret and file after a resolve; an error leaves the file as it was |
| ControllerSecret.ResolveExactly | src-tui/src/enhance/mod.rs:380-453 | when a resolve succeeds and with what: a missing file is composed, a real secret is returned untouched, a placeholder is rewritten exactly in an accepted layout whose new text parses as the old document with the new secret |
| ControllerSecret.ScalarSecretIsReturned | src-tui/src/enhance/mod.rs:432-439 | a text, number or boolean that is no placeholder is the secret, as its text |
| ControllerSecret.UnreadableIsAnError | src-tui/src/enhance/mod.rs:380-410 | a file that is no readable mapping is left alone |
| ControllerSecret.RotatedFileHoldsSecret | src-tui/src/enhance/mod.rs:445-550 | a rotated file holds the generated secret |
| ControllerSecret.ResolveIsStable | src-tui/src/enhance/mod.rs:380-453 | after a successful resolve, every later one returns the same secret and leaves the bytes alone |
| ControllerSecret.RotationChangesOnlyTheSecret | src-tui/src/enhance/mod.rs:522-550 | a rotation changes the secret line and nothing else, in text and in the parsed document |
| CorePolicy.ParsedIsValid | src-tui/src/mihomo_manager/core_policy.rs:23-78 | whatever is parsed keeps the limits of section 9 of SemVer 2.0.0 and the number range |
| CorePolicy.RenderParses | src-tui/src/mihomo_manager/core_policy.rs:23-78 | a valid version's text, with or without build metadata, parses back to it unless it ends in a hyphen, and is refused if it does |
| CorePolicy.ParseExactly | src-tui/src/mihomo_manager/core_policy.rs:23-78 | exactly the accepted texts of a version, with or without `v`: the grammar's, and a release with `-+` before its build metadata, unless they end in a hyphen |
| CorePolicy.HyphenIsRefused | src-tui/src/mihomo_manager/core_policy.rs:34-37 | two valid versions the parser refuses, `1.0.0-a-` and `1.0.0+b-` |
| CorePolicy.CompareIsPrecedence | src-tui/src/mihomo_manager/core_policy.rs:80-102 | the comparison is the precedence of section 11 of SemVer 2.0.0, and equal only for equal versions |
| CorePolicy.CompareIsTotalOrder | src-tui/src/mihomo_manager/core_policy.rs:80-102 | total, antisymmetric and transitive |
| CorePolicy.IsNewerThanExactly | src-tui/src/mihomo_manager/core_policy.rs:167-169 | newer means that both texts parse and the target strictly precedes |
| CorePolicy.UsableExactly | src-tui/src/mihomo_manager/core_policy.rs:146-165 | usable means a release of the pinned major that the pin does not exceed |
| CorePolicy.UsableUpwardClosed | src-tui/src/mihomo_manager/core_policy.rs:146-165 | usability is upward closed among releases of the major, and no prerelease is usable |
| Askpass.DecodeInvertsEncode | src-tui/src/commands/askpass.rs:170-172 | decoding returns exactly the encoded text, for the encoding of section 3 of RFC 3629 |
| Askpass.EncodeInvertsDecode | src-tui/src/commands/askpass.rs:170-172 | whatever decodes is the encoding of its text |
| Askpass.Buffer.PopChar | src-tui/src/commands/askpass.rs:157-166 | the walk backwards truncates at the last index that starts a character |
| Askpass.PopRemovesLastChar | src-tui/src/commands/askpass.rs:157-166 | on encoded text that removes exactly the last character |
| Askpass.ReadPassword | src-tui/src/commands/askpass.rs:121-153 | the byte loop, with submission, abort, backspace and ignored control bytes |
| Askpass.ReadingExactly | src-tui/src/commands/askpass.rs:126-151 | reading goes on until the first line feed, carriage return or Ctrl-C |
| Askpass.ControlEnds | src-tui/src/commands/askpass.rs:126-151 | whatever follows, Enter submits the buffer, Ctrl-C aborts, and other control characters but backspace change nothing |
| Askpass.BufferEncodesStack | src-tui/src/commands/askpass.rs:121-166 | after any typed characters and backspaces the buffer is the encoding of the character stack |
| Askpass.SubmittedIsTyped | src-tui/src/commands/askpass.rs:121-172 | Enter submits exactly the characters on the stack, whatever follows |

## Left out

- RuntimeLock.LockOrder: asks that a rename left behind by a cancelled mode task lands before anybody takes the lock again, because otherwise the claim is false (`LateRenameLosesCommit`); `LockOrderExactly` has the exact condition on a free lock.
- RuntimeLock.PutBackLeavesTheRest: takes a loaded configuration with a mode set to be loaded back as it was saved, since YAML text is not modelled; `FillingLoaderSavesBack` shows that a loader filling in defaults is such a one.
- ControllerSecret.ResolveIsStable: takes the file composed on a fresh install to read back, and an explicit `secret` to win over merged keys, since the YAML library is not part of this model.
- SysProxy.ReleaseRestores: takes a text that `gsettings` printed to read back as itself, modes and port numbers to print as usual (`PlainToolsAreFaithful` shows such tools), and no other writer in between, since the tool itself is not modelled.
- Disk errors while a previous runtime file is put back: the statements say which of the two attempts (rollback, drop) has to succeed; when both fail the new file stays.
- A candidate write that outlives a cancelled sing-box apply may recreate the private candidate file after its removal; the formal file is not concerned.
- What a supervisor writes in `Regenerate` mode is an arbitrary optional content of the runtime file; process spawning, readiness probes and adoption of foreign cores are outcomes.
- Desktop tools that are present are taken to succeed; partial tool failures, a tool installed or removed during a run, and snapshot files edited by hand are not modelled. An unreadable marker counts as an empty one.
- Surrounding whitespace of a KDE value, which the reading tool trims, and the difference between an unset and an empty KDE key, which reads the same.
- System binaries and managed binaries are different places; file-system errors other than a missing file count as a failed examination.
- The text of diagnostics, progress reports, and the archive download with its digest and size limits.
- `apply_rules_fragment`, the dispatch over chain types and the parsing of fragments: they would add only easy members beside the list patch.
- YAML tags, key order and anchors; comments survive only where the code works on text.
- Object identity in scripts is a finite graph of own properties; getters, proxies and properties that change while being read are not modelled.
- Build metadata of versions is parsed and dropped, as in the code.
- Terminal drawing, key echo, byte formatting, exit codes, command-line definitions and translations.
