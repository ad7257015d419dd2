# Sandbox Guard: a verified model of the trusted core

Sandbox Guard copies a project into a private stage, lets an untrusted coding agent work on the copy
inside a sandbox, and afterwards carries the agent's changes back to the host after a review. This
project models the trusted parts of that round trip in Dafny and proves what they promise:

- **The export and apply transaction** (`Splitting`, `PathCodec`, `HostTree`, `Manifest`, `SimpleUpdate`, `Ledger`,
  `Transaction`, `Outcome`, `ChangeApply`, `Export`, `EndToEnd`, `Staging`, `Policy`). Staging records a baseline,
  export compares the returned workspace with it, apply replays the difference on the host with a
  preflight, a rollback slot per replaced file, an action log, a log of created directories, in-process
  rollback and a cleanup phase.
- **Bounded indexes that must agree with the unbounded thing** (`Sorting`, `AuditTail`, `EventIndex`,
  `EventDerivation`): the two-pass tail query over an unordered audit directory, and the 4096-entry event
  index over an unbounded history.
- **Tightening and store state machines** (`Overlay`, `SignedStore`, `SessionStore`, `ReviewGate`): owner
  overlays, the signed profile store, the session snapshot pointer, and the review prompt.

## How to read it

The host is an object with a tree (component paths to nodes with inode, bytes, mode and link count).
Every system call is a method that may be *refused*: an arbitrary choice is made afresh for each call, and
a ghost counter counts the refusals. A ghost `trace` records the tree after every single mutation, so a
property of all entries of the trace is a property of every prefix of every run. The transaction invariant
`Ledger.Sound` says, at every such moment, where each original node is (`Tracks`), that the action log
undoes step by step to a base tree (`Reverts`), and that the base is the starting tree plus the logged
directories (`IsBase`). Apply is then proved against `SimpleUpdate.Updated`, a plain fold over a map from
paths to contents, which in turn has an order-free description (`IsOutcome`).

Checks, comparators and tables that the code runs are functions, used by a method and by the specification of
that method alike. What they mean is stated apart from them, in ghost predicates on the fields, bytes and
characters involved, and proved equivalent: `Manifest.IsSoundManifest`, `Outcome.PassesChecks` and
`Outcome.IsCarriedOut`, `EndToEnd.IsReport`, `AuditTail.IsAnswer`, `EventIndex.IsNewestSelection`,
`EventDerivation.IsDerivation`, `Overlay.IsMergeOf`, `SignedStore.IsIntact`, `ReviewGate.IsDialogue` and so on. The
contracts of the main operations state these.

The session store keeps a trace of states like the host: a failing step leads straight to the return, and every best-effort
clean-up may itself fail, so the end states of a run include the states of a process stopped between any two
steps. The profile store has no trace; its invariant is a pre- and postcondition of every single step.

## Assumptions

- Nothing else writes to the host tree, the returned workspace, the export tree, the profile store or the
  session store while an operation runs. Staging is the exception: what it observes and reads of each candidate is arbitrary.
- SHA-256 is an ideal hash: equal digests exactly for equal contents. Signature checking is an arbitrary
  function of package, signature, key and fingerprint. Globs are an arbitrary relation of rules and paths.
- Random file names are arbitrary with the right prefix, but never equal to a name that occurs in the
  manifest. That they are free in the directory is not assumed: exclusive creation and no-replace renames
  deal with that. Only the statements that apply must succeed suppose a *lucky* host, on which drawn names are
  free. Random event identifiers are distinct; those of snapshots and tombstones need not be fresh.
- Paths are opened by their components. Where the kernel is handed the spelling of a record path, a trailing
  slash or a trailing dot component makes it refuse a regular file; that is a refused call here.
- Directory handles are modelled as paths, and device, owner and mode checks of directories as one flag.
- Counters are unbounded, except where saturating multiplication matters (`ReviewGate`); the overflow checks
  of 64-bit sums are unreachable for sizes that fit in memory or on a disk.
- Text is bytes or characters as the code treats it; trimming knows ASCII white space only in `SignedStore` and
  is arbitrary in `ReviewGate`. The range of representable times is a parameter of the event parsers.

## What the code does where its documentation is silent or different

- An overlay can widen what the proxy lets through. A rule with subdomains is handed to the proxy as a wildcard,
  which does not match the hostname itself, so restricting the rule to its hostname opens that hostname
  (`Overlay.RestrictionCanWiden`). `Overlay.ReachShrinksIff` has the exact condition: reach shrinks if and only if
  the base already reaches every restricted hostname. This concerns every base with a wildcard rule; the only
  compiled-in profile has a single exact rule, so no command can trigger it today. Under the reading of the
  profile, where subdomains are trusted besides the hostname, accepted overlays only tighten.
- Queries for one run are answered from the evicting index, so they may miss events that an unbounded
  history would show. `FilteredQueryIsExact` gives the exact condition and `FilteredQueryCanLose` an example.
- A workspace path that is denied by policy is rejected without being counted as seen. If the same path is in
  the baseline, the manifest holds a rejection *and* a deletion for it; such a manifest is never applied.
- Manifest validation compares rendered paths, and a doubled slash survives rendering, so `a/b` and `a//b` pass
  as two records although they denote one file (`PathCodec.DoubledSlashIsAnotherPath`). Apply never loses data over
  this: the second record meets a conflict or a changed source and the run is rolled back, or it is applied to the
  result of the first. The statement that apply must succeed therefore asks for one change per path; export
  provides that (`EndToEnd.ExportPassesVerification`).
- The rollback promise does not cover temporary files, whose removal is best effort: after a refused removal
  one file named `.sandbox-guard-apply-*` may remain.
- A failed installation can leave an empty name directory in the profile store. It holds no version and is
  listed as nothing, but it counts toward the 64 names.
- An installation whose clean-up is refused leaves a hidden `.install-*` directory, and a removal that stops after
  the rename leaves a hidden tombstone; in particular nothing is put back when only the inspection of the tombstone
  is refused. From then on listing fails until these are removed by hand. A process that is stopped in between
  counts as a refused clean-up. `SignedStore.RunThenList` has the exact condition for runs.
- Each run of the session store validates under its own effective profile. If an overlay lowers the session quotas
  between two runs, what the earlier one published can be refused by the later one, although no call was
  (`SessionStore.SessionDisk.Open`).

## Model

| member | source | states |
|---|---|---|
| `PathCodec.DisplayPath` | crates/sandbox-guard-core/src/staging.rs:817-828 | Byte by byte: slash, space and the graphic characters but `%` stay as they are, and any other byte becomes `%` and two uppercase hexadecimal digits. |
| `PathCodec.UnescapedRendered` | crates/sandbox-guard-core/src/staging.rs:817-828 | Unescaping the printed form of any byte string gives the same bytes back. |
| `PathCodec.RenderedIsInjective` | crates/sandbox-guard-core/src/staging.rs:817-828 | Different byte paths never print alike. |
| `PathCodec.DecodeChangePath` | crates/sandbox-guard-core/src/change_apply.rs:354-399 | For every input and every path: the result is `Ok(path)` if and only if the input is exactly the printed form of that path, byte by byte, and the path is free of NUL, not empty, relative, without a leading dot component, and without a `..` segment. So decoding undoes printing, and nothing but printer output is accepted. |
| `PathCodec.CandidateMeans` | crates/sandbox-guard-core/src/staging.rs:646-651 | The candidate check on components equals its meaning on bytes and segments between slashes. |
| `Splitting.SplitMeans` | crates/sandbox-guard-core/src/staging.rs:646-651 | The parts of a split are exactly the separator-free segments that are bounded by separators or the ends. |
| `PathCodec.CandidateComponents` | crates/sandbox-guard-core/src/staging.rs:646-651 | A NUL-free valid candidate has at least one component, and every component is a usable directory entry name. |
| `PathCodec.ComponentsAround` | crates/sandbox-guard-core/src/change_apply.rs:391-398 | The components around a slash are those before it followed by those behind it; empty and dot components vanish. |
| `PathCodec.DoubledSlashIsAnotherPath` | crates/sandbox-guard-core/src/change_apply.rs:391-433 | Two accepted rendered paths can denote the same components: the duplicate check on rendered paths does not rule that out. |
| `PathCodec.DecodeOfWalkedPath` | crates/sandbox-guard-core/src/change_apply.rs:391-398 | For a path that a directory walk can yield, the printed form is accepted as that path only, and splitting gives back the walked components. |
| `Manifest.ValidateManifest` | crates/sandbox-guard-core/src/change_apply.rs:401-473 | Accepts exactly the sound manifests, field by field: schema 1, run and policy of the baseline, no rejections, distinct rendered paths, each of them the printed form of a valid path, and each record with the digests, length and executability that its kind calls for and the digest of its baseline entry; returns the plan; reports rejections exactly if the header matches and there are any, and an unsafe manifest in all other cases. |
| `Manifest.AcceptableMeans` | crates/sandbox-guard-core/src/change_apply.rs:401-473 | The check with maps and sets equals that description on the fields of records and entries. |
| `Manifest.PlanIsSortedPermutation` | crates/sandbox-guard-core/src/change_apply.rs:467-472 | The plan is a permutation of the resolved records, ascending by component path: of two neighbours, the first is a prefix or smaller where they first differ. |
| `Sorting.PathLeMeans` | crates/sandbox-guard-core/src/change_apply.rs:467-472 | The order of paths: a prefix comes first, or else the smaller component where two paths first differ. |
| `Manifest.DistinctRenderedAt` | crates/sandbox-guard-core/src/change_apply.rs:427-433 | The running duplicate check amounts to pairwise distinct rendered paths. |
| `HostTree.Host.RenameNoReplace` | crates/sandbox-guard-core/src/change_apply.rs:236-247 | The no-replace rename: moves one node to a free name or changes nothing; without a refused call it succeeds exactly if source exists, target is free and its parent is a directory. |
| `Transaction.Preflight` | crates/sandbox-guard-core/src/change_apply.rs:174-186 | Without refused calls it passes if and only if nothing conflicts; passing implies, field by field, that every added path is absent below real directories, that every modified or deleted path holds a local regular file with one link, no write bits for others, and the executability, length and digest of its baseline entry, and that every exported file is private and has the executability, length and digest of its record; it changes nothing. |
| `Transaction.PreflightImpliesShape` | crates/sandbox-guard-core/src/change_apply.rs:174-186 | If every check before the first mutation passes, no changed path is a strict component-prefix of another. |
| `Transaction.OpenMatchingSource` | crates/sandbox-guard-core/src/change_apply.rs:520-562 | Succeeds only on a node at the path that is a local regular file with one link, no write bits for others, and the executability, length and digest of the baseline entry; without refused calls exactly then. |
| `Transaction.VerifyRollbackSource` | crates/sandbox-guard-core/src/change_apply.rs:564-605 | Without refused calls it succeeds exactly if the slot holds the inode that was opened and it still has the type, links, mode, length and digest of the baseline entry. |
| `Transaction.OpenParent` | crates/sandbox-guard-core/src/change_apply.rs:782-848 | Grows the tree by directories on the way to the path only, logs each one it made, and on success all parents are trusted directories; without refused calls it succeeds if what is already there can be trusted; the transaction invariant is kept at every step. |
| `Transaction.CreateTempFile` | crates/sandbox-guard-core/src/change_apply.rs:758-780 | Creates one fresh private file beside the target or leaves the tree as it was. |
| `Transaction.FillTemp` | crates/sandbox-guard-core/src/change_apply.rs:700-756 | Chunk by chunk, the temporary ends up with exactly the exported bytes and the requested mode; without refused calls it succeeds exactly if length and digest are those of the record. |
| `Transaction.PrepareExportFile` | crates/sandbox-guard-core/src/change_apply.rs:682-756 | On success a temporary beside the target holds the exported bytes with the mode asked for; a temporary that stays behind after a failure implies a refused call. |
| `Transaction.PreservedFileMode` | crates/sandbox-guard-core/src/change_apply.rs:994-1012 | The nine single-bit copies amount to masking with 0777. |
| `Transaction.ApplyAdded` | crates/sandbox-guard-core/src/change_apply.rs:202-222 | On success the clean tree gained exactly the exported file with mode 644 or 755, and the log gained the action that removes it. |
| `Transaction.MoveToSlot` | crates/sandbox-guard-core/src/change_apply.rs:236-256 | Moves the original under a fresh rollback name beside it and logs that; or leaves everything as it was. |
| `Transaction.ApplyModified` | crates/sandbox-guard-core/src/change_apply.rs:223-285 | On success the path holds the exported bytes with the low nine mode bits of the original, and the original is in the logged slot. |
| `Transaction.SwapFiles` | crates/sandbox-guard-core/src/change_apply.rs:236-285 | Original aside, checked again, replacement in place: on success exactly these two names changed and both are logged; without refused calls and taken names it succeeds whenever the original still matches the baseline. |
| `Transaction.ApplyDeleted` | crates/sandbox-guard-core/src/change_apply.rs:286-316 | On success the path is free and the original is in the logged slot. |
| `Ledger.PreservedExactly` | crates/sandbox-guard-core/src/change_apply.rs:188-317 | In a tree that has lost nothing each original is under its own path or a rollback slot beside it, and its inode is at exactly as many paths as at the start, hard links included. |
| `Ledger.PreservedExactlyOnce` | crates/sandbox-guard-core/src/change_apply.rs:188-317 | An original with one name at the start has exactly one name at every later moment: its own path or one rollback slot beside it. |
| `Ledger.SoundMakeDirectory` | crates/sandbox-guard-core/src/change_apply.rs:805-826 | Making a logged parent directory keeps the transaction invariant: nothing is lost, the log undoes to a base, and the base unwinds to the start. |
| `Ledger.SoundMoveAside` | crates/sandbox-guard-core/src/change_apply.rs:236-256 | Moving an original aside keeps the transaction invariant. |
| `Ledger.SoundAdd` | crates/sandbox-guard-core/src/change_apply.rs:202-222 | Installing and logging an addition keeps the transaction invariant. |
| `Ledger.SoundInstall` | crates/sandbox-guard-core/src/change_apply.rs:270-284 | Installing a replacement and completing its log entry keeps the transaction invariant. |
| `ChangeApply.ApplyAll` | crates/sandbox-guard-core/src/change_apply.rs:188-317 | The forward loop: at every stop the transaction invariant holds; on success the tree without rollback slots is the simple update by all steps, and the counts are those of the plan; if all changes were ready at the start, only a refused call or a taken name can stop it. |
| `ChangeApply.ClearIsReady` | crates/sandbox-guard-core/src/change_apply.rs:174-186 | A passed preflight and trusted parents make every change ready on the starting tree. |
| `ChangeApply.ReadyKept` | crates/sandbox-guard-core/src/change_apply.rs:190-315 | Applying one change does not get in the way of another one on an unrelated path. |
| `ChangeApply.UndoAction` | crates/sandbox-guard-core/src/change_apply.rs:895-935 | Undoing one log entry touches only its path and its slot, loses nothing even when refused halfway, and equals the inverse of the action when it succeeds. |
| `ChangeApply.Rollback` | crates/sandbox-guard-core/src/change_apply.rs:893-950 | If it reports success the starting tree is back, node for node, and every directory of the run is gone, up to one stray `.sandbox-guard-apply-` file; without refused calls and without a stray file it always succeeds; nothing is lost on the way even if it fails. |
| `ChangeApply.RunTransaction` | crates/sandbox-guard-core/src/change_apply.rs:188-351 | Success, rollback and partial cleanup of the whole mutation phase, with crash-prefix safety up to the cleanup phase; every state of the cleanup phase is the finished update plus slots that still hold the originals of their paths. |
| `ChangeApply.ApplyExportedChanges` | crates/sandbox-guard-core/src/change_apply.rs:76-352 | `Ok` implies, on fields alone: the manifest is sound, deletions were authorised, every changed path of the starting tree held the staged file or nothing, every exported file is the recorded one, the counts are the numbers of records of each kind, and (with one change per path) added files have the exported bytes with mode 644 or 755, modified ones the exported bytes with the nine permission bits they had, deleted ones are gone, only missing directories above added paths are new, and all else is untouched. If any changed path holds anything else, the result is an error and tree and trace are unchanged. Every state on the way up to cleanup has lost nothing; a plain error implies the starting tree; every state of the cleanup phase, and the result of a failed one, is the update plus slots that hold the originals of their paths; the two bad errors need a refused call; deletion authorisation is demanded exactly for accepted manifests that delete, and rejections are reported exactly when there are any under a matching header; and without refused calls and taken names, with one change per path, it succeeds if and only if the manifest is accepted and authorised, the roots are safe, nothing conflicts, and the directories on the way can be trusted. |
| `Outcome.ChecksMean` | crates/sandbox-guard-core/src/change_apply.rs:520-662 | The conflict checks of the preflight pass if and only if host and export are, field by field, what baseline and records say. |
| `Outcome.AppliedIsCarriedOut` | crates/sandbox-guard-core/src/change_apply.rs:188-317 | The simple update by the plan, where no path is changed twice, is the outcome described record by record: bytes, mode numbers, removals, new directories, and everything else as it was. |
| `Outcome.CountIsPositions` | crates/sandbox-guard-core/src/change_apply.rs:190-191 | A count of a kind is the number of records of that kind. |
| `ChangeApply.SlotContents` | crates/sandbox-guard-core/src/change_apply.rs:334-350 | A slot is beside a changed path and holds what that path started with; only if two changes are on one path can it hold a file that the first of them installed. |
| `ChangeApply.CountsAddUp` | crates/sandbox-guard-core/src/change_apply.rs:190-191 | Added, modified and deleted counts sum to the number of changes. |
| `SimpleUpdate.UpdatedIsOutcome` | crates/sandbox-guard-core/src/change_apply.rs:188-317 | Folding the steps equals the order-free description: added and modified paths hold the exported bytes, deleted ones are gone, only missing ancestors of added paths are new, all else is untouched. |
| `SimpleUpdate.UpdatedInAnyOrder` | crates/sandbox-guard-core/src/change_apply.rs:174-186 | For un-nested steps on distinct paths the final tree does not depend on their order. |
| `Policy.DeniedByPathOrAncestor` | crates/sandbox-guard-core/src/policy.rs:285-296 | Reports a rule if and only if some rule matches the path or one of its ancestors. |
| `Policy.DenialIsInherited` | crates/sandbox-guard-core/src/policy.rs:283-296 | Nothing below a denied path is allowed. |
| `Policy.WithUserPolicy` | crates/sandbox-guard-core/src/policy.rs:228-248 | Compiles exactly for supported schemas with valid globs; the rules are exactly the built-in and the requested ones, and each limit is the lower of the default and the requested one. |
| `Policy.TighteningKeepsDenials` | crates/sandbox-guard-core/src/policy.rs:228-248 | No user policy removes a built-in denial. |
| `Staging.CopyStableFile` | crates/sandbox-guard-core/src/staging.rs:742-800 | Whatever is read and whoever writes meanwhile: copies exactly if device, inode, times and length look the same before and after, the reads give the announced number of bytes piece by piece, and that is within the limit; the copy is what was read, with its length, digest and executability. |
| `Staging.EveryCandidateCounts` | crates/sandbox-guard-core/src/staging.rs:167-332 | Included, excluded and directories add up to the candidates. |
| `Staging.StageFile` | crates/sandbox-guard-core/src/staging.rs:229-322 | The total limit holds of what was copied although it is checked with the announced length; apart from I/O errors it fails only if the file is unstable, too large, or one too many. |
| `Staging.BuildStage` | crates/sandbox-guard-core/src/staging.rs:167-342 | On success the lists are the sorted fates of all candidates, the totals are theirs, the limits hold, and the workspace holds exactly the included files and no denied path; apart from I/O errors it fails exactly if a path is no candidate path, something is fatal by itself, what is to be included does not fit, or the manifest takes more than 64 MiB. |
| `Staging.StageAccountsForAll` | crates/sandbox-guard-core/src/staging.rs:167-332 | Every candidate is exactly one of included, excluded or directory; totals equal list lengths and byte sum; all limits hold; an entry is in the manifest if and only if some candidate is an allowed, undisturbed regular file of the same file system with one name, of that printed path, length, digest and executability; an exclusion is in it if and only if some candidate is denied, missing, a link, special, on another file system or hard-linked, with that reason; both lists ascend by path. |
| `Staging.FateMeans` | crates/sandbox-guard-core/src/staging.rs:167-332 | What becomes of a candidate, in terms of what the system reported about it. |
| `Staging.StageIsBaseline` | crates/sandbox-guard-core/src/staging.rs:312-332 | The manifest of a stage has canonical paths, each once: what export and apply expect of a baseline. |
| `Staging.ExportsNothingIff` | crates/sandbox-guard-core/src/export.rs:185-339 | Exporting any workspace against a stage gives an empty manifest if and only if the workspace has exactly the staged files with their contents, and nothing denied, shared or foreign, whatever its top-level Git directory holds. |
| `Staging.UntouchedStageExportsNothing` | crates/sandbox-guard-core/src/staging.rs:167-337 | Exporting a stage that nobody touched outside the top-level Git directory, where staging makes a repository by default, gives an empty manifest, for every policy that denies that directory. |
| `Export.ExportChanges` | crates/sandbox-guard-core/src/export.rs:199-339 | The walk and deletion loops compute exactly the manifest of the classification, keep an export tree that mirrors the workspace and holds every exported file; apart from unreadable entries it fails exactly if a file to be copied is too large or the exported ones are too many or too large together. |
| `Export.ExportFile` | crates/sandbox-guard-core/src/export.rs:244-287 | Reports a change exactly if content differs from the baseline entry, and keeps the copy exactly then. |
| `EndToEnd.ManifestAccountsForAll` | crates/sandbox-guard-core/src/export.rs:199-339 | A record is in the manifest if and only if it is the record of a changed workspace file or the deletion of a baseline path with no counted entry; a path is rejected if and only if its entry is unsafe or denied. |
| `EndToEnd.ExportMeans` | crates/sandbox-guard-core/src/export.rs:199-339 | The manifest field by field: a record is in it if and only if it reports an allowed regular file with its digest, length and executability, as added if the baseline does not know the path and as modified if it knows another digest, or the deletion of a baseline entry that nothing in the workspace stands for; a path is rejected if and only if it is denied, special, shared or foreign; both lists ascend. |
| `Export.JudgeMeans` | crates/sandbox-guard-core/src/export.rs:222-287 | The classification of one entry equals that description. |
| `EndToEnd.EmptyIffUntouched` | crates/sandbox-guard-core/src/export.rs:199-339 | The manifest is empty if and only if the workspace is untouched. |
| `EndToEnd.AllRecordsAreDistinct` | crates/sandbox-guard-core/src/export.rs:199-339 | No path gets two records. |
| `EndToEnd.ExportIsAccepted` | crates/sandbox-guard-core/src/change_apply.rs:401-473 | Any manifest without rejections is accepted by validation for the same baseline and policy. |
| `EndToEnd.ExportPassesVerification` | crates/sandbox-guard-core/src/change_apply.rs:607-662 | What export publishes passes the verification that apply makes of it, and no two planned changes are on the same path. |
| `EndToEnd.ExportCanBeApplied` | crates/sandbox-guard-core/src/change_apply.rs:76-186 | An export without rejections can be applied whenever the host is unchanged where the plan works, its directories can be trusted, and deletions are authorised. |
| `EndToEnd.HostBecomesWorkspace` | crates/sandbox-guard-core/src/export.rs:199-339 | After an export without rejections and a successful apply on a host that still matched the baseline: the host has the workspace bytes at every path of the baseline or the workspace, the very same nodes elsewhere, and nothing new but workspace files and directories. |
| `EndToEnd.ExportAndApply` | crates/sandbox-guard-core/src/change_apply.rs:76-352 | All four conclusions for the two operations run one after the other; and once the export is complete without rejections, only the state of the host, deletions without authorisation, another policy, a refused call or a taken name can stop the rest. |
| `AuditTail.CountFile` | crates/sandbox-guard-core/src/audit_reader.rs:73-91 | One visit keeps the window exact and tight: exact counts per kept second, fewer than `limit` files newer than the oldest kept second, everything dropped older than everything kept, at most `limit` seconds, and no second kept again that was dropped before. |
| `AuditTail.DroppedStaysDropped` | crates/sandbox-guard-core/src/audit_reader.rs:83-90 | A dropped second is never kept again: at least `limit` files are newer, and a kept second never has that many. |
| `AuditTail.NewestSeconds` | crates/sandbox-guard-core/src/audit_reader.rs:69-95 | The first pass ends with an exact, tight window of at most `limit` seconds, unless it meets a foreign entry. |
| `AuditTail.WindowGivesCutoff` | crates/sandbox-guard-core/src/audit_reader.rs:93-96 | The oldest kept second is the cutoff of the whole directory. |
| `AuditTail.CutoffIsUnique` | crates/sandbox-guard-core/src/audit_reader.rs:93-96 | A directory has one cutoff only. |
| `AuditTail.WindowIsEnough` | crates/sandbox-guard-core/src/audit_reader.rs:97-127 | Sorting and truncating the files at or above the cutoff gives the same as sorting and truncating everything. |
| `AuditTail.RescanKeepsCutoff` | crates/sandbox-guard-core/src/audit_reader.rs:97-112 | A second scan of the same files in another order has the same cutoff and the same answer. |
| `AuditTail.TailPersistedAudits` | crates/sandbox-guard-core/src/audit_reader.rs:61-127 | Whenever the two-pass query answers, on fields alone: the audits are those of files of the directory, strictly descending by creation time and then run identifier; there are as many as asked for, or as many as there are files; and no file left out is newer than one that is in. It fails exactly if there is a foreign entry of any age, or else if the files at or above the cutoff are more than 4096, larger than 256 MiB together, or one of them does not hold the audit of its name, with the error that says so. |
| `AuditTail.FindPersistedAudit` | crates/sandbox-guard-core/src/audit_reader.rs:130-156 | Not found, found and unreadable are each characterised exactly, and the other errors need a second claim or a foreign entry; what is returned is the audit of the only file that claims the run, and that file holds the audit of its name. |
| `EventIndex.ValidateRecords` | crates/sandbox-guard-core/src/events.rs:387-404 | Accepts exactly the record lists with distinct identifiers in which every destination is port 443 of an exact hostname, spelled out on its characters and labels. |
| `EventIndex.ValidMeans` | crates/sandbox-guard-core/src/events.rs:387-404 | The running check equals its meaning on identifiers, ports and the characters of hostnames. |
| `EventIndex.ExactHostnameMeans` | crates/sandbox-guard-core/src/events.rs:274-293 | The hostname check equals its meaning: at most 253 lower case letters, digits, dots and hyphens, in labels of 1 to 63 without a hyphen at either end. |
| `EventIndex.WindowAbsorbs` | crates/sandbox-guard-core/src/events.rs:202-222 | Evicting before an append makes no difference to the window after it. |
| `EventIndex.RunKeepsWindow` | crates/sandbox-guard-core/src/events.rs:202-222 | After any sequence of appends the index is the window of the whole history. |
| `EventIndex.RunIgnoresOrder` | crates/sandbox-guard-core/src/events.rs:202-222 | With globally distinct identifiers the index does not depend on the order of the appends. |
| `EventIndex.WindowIsGreatest` | crates/sandbox-guard-core/src/events.rs:406-414 | The window and the evicted part make up the history; whatever was evicted is older than whatever is kept, or of the same time with no greater identifier; nothing is evicted unless 4096 are kept. |
| `EventIndex.EventStore.Append` | crates/sandbox-guard-core/src/events.rs:202-222 | A published append extends the history by the batch, and the file keeps the newest 4096 events by time and then identifier; an append that fails before the publishing rename leaves the file unchanged; too many and invalid records are told exactly, and any other failure needs a refused call. |
| `EventIndex.SelectEvents` | crates/sandbox-guard-core/src/events.rs:180-198 | Answers exactly for limits 1 to 1000 on indexes of schema 1 with at most 4096 valid records; on fields alone: events of the index and of the run asked for, strictly descending by time and then identifier, as many as asked for or all there are, and nothing left out is newer. |
| `EventIndex.EvictionIsInvisible` | crates/sandbox-guard-core/src/events.rs:180-222 | For every history and every limit up to 1000, an unfiltered query on the evicting index equals the query on the never-evicted history. |
| `EventIndex.FilteredQueryIsExact` | crates/sandbox-guard-core/src/events.rs:180-198 | A query for one run equals the query on the full history if and only if the window still has `limit` events of that run or all of them. |
| `EventIndex.FilteredQueryCanLose` | crates/sandbox-guard-core/src/events.rs:180-198 | A history of 4097 events in which the query for one run loses its only event. |
| `EventDerivation.DerivationConserves` | crates/sandbox-guard-core/src/events.rs:94-161 | For audits of any size: at most 512 records, the summary last, and lines read plus dropped entries equal all lines. |
| `EventDerivation.EventsFromAudit` | crates/sandbox-guard-core/src/events.rs:94-161 | The loops emit exactly the derived observations in order, with their identifiers and the run; on the characters of the lines: one record for each well formed line that is read, in order, all lines up to 511 and the first 510 of more, then a note of how many were not read, then the summary with the counts of the run; and with fresh identifiers the result passes the checks of an append. |
| `EventDerivation.TunnelLineMeans` | crates/sandbox-guard-core/src/events.rs:224-272 | A line yields a tunnel at a time to a host if and only if it is decimal seconds, a tab, and that exact hostname with port 443, in at most 512 characters. |
| `EventDerivation.ApprovalLineMeans` | crates/sandbox-guard-core/src/events.rs:237-272 | A line yields an approval if and only if it is that, a tab, and one of the five decision words. |
| `EventDerivation.DerivedIsValid` | crates/sandbox-guard-core/src/events.rs:224-291 | Whatever the parsers let through is a valid event kind. |
| `Overlay.ApplyProfileOverlay` | crates/sandbox-guard-core/src/profile.rs:324-405 | Accepts exactly the acceptable overlays, spelled out on fields, and never fails on the final validation. The result, on fields alone: each flag is off if the overlay says so and as in the base if it says nothing; each quota is the requested one if there is one and that of the base otherwise; base rules that are not named are the same and in order, removed ones are gone, and restricted ones have no subdomains; all else is equal. |
| `Overlay.AcceptsMeans` | crates/sandbox-guard-core/src/profile.rs:324-405 | An overlay is acceptable if and only if its lists are distinct valid hostnames of rules of the base, its restrictions meet subdomain rules that are not removed, it switches nothing on, and no quota is zero, new or raised. |
| `Overlay.MergedMeans` | crates/sandbox-guard-core/src/profile.rs:324-405 | The closed form is the result described field by field. |
| `Overlay.MergedIsValid` | crates/sandbox-guard-core/src/profile.rs:148-306 | The result of an accepted overlay passes the validation of profiles. |
| `Overlay.OverlayOnlyTightens` | crates/sandbox-guard-core/src/profile.rs:324-444 | For every valid base and accepted overlay: the hosts denoted by the rules (hostname, and subdomains if flagged) are a subset, flags and quotas never rise, all else is equal, removed names are gone and restricted ones are exact. What the proxy enforces is another matter, see the next rows. |
| `Overlay.ReachShrinksIff` | crates/sandbox-guard-cli/src/grok.rs:273-286 | What the proxy enforces shrinks if and only if the base already reaches every hostname that the overlay restricts. |
| `Overlay.NewReachIsRestricted` | crates/sandbox-guard-helper/src/proxy.rs:447-473 | Any host that the proxy lets through only after the overlay is one of the restricted hostnames. |
| `Overlay.RemovalShrinksReach` | crates/sandbox-guard-core/src/profile.rs:332-347 | An overlay that restricts no host never widens what the proxy enforces. |
| `Overlay.RestrictionWidens` | crates/sandbox-guard-helper/src/proxy.rs:447-473 | For every hostname: restricting an only wildcard rule to its hostname is accepted, and opens a hostname that was closed. |
| `Overlay.RestrictionCanWiden` | crates/sandbox-guard-helper/src/proxy.rs:447-473 | A concrete base and overlay of that kind. |
| `Overlay.RemoveHosts` | crates/sandbox-guard-core/src/profile.rs:332-347 | Fails exactly if a name is not a rule of the base; otherwise the rules left are those not named, in order. |
| `Overlay.RestrictHosts` | crates/sandbox-guard-core/src/profile.rs:349-367 | Fails exactly if a name has no rule with subdomains; otherwise exactly the named rules lose theirs. |
| `Overlay.TightenedFields` | crates/sandbox-guard-cli/src/profile.rs:531-584 | One note per changed field, in report order, with the name of that field. |
| `Overlay.ReportIsEmptyIffUnchanged` | crates/sandbox-guard-cli/src/profile.rs:531-584 | For accepted overlays the report is empty if and only if the result equals the base. |
| `SignedStore.NormalizedAgain` | crates/sandbox-guard-core/src/profile_store.rs:716-739 | Normalised hexadecimal text is its own normal form, with or without the line end that the store writes. |
| `SignedStore.NormalMeans` | crates/sandbox-guard-core/src/profile_store.rs:716-739 | Normalising succeeds with a text if and only if that text is, in lower case, the hexadecimal digits of the right number of bytes between white space. |
| `SignedStore.CheckMeans` | crates/sandbox-guard-core/src/profile_store.rs:75-92 | A package is accepted if and only if fingerprint, signature and key are hexadecimal of the right lengths, the package is at most 64 KiB and verifies under them, and name and version are plain and the name is not built in. |
| `SignedStore.VerifyMeans` | crates/sandbox-guard-core/src/profile_store.rs:172-246 | An installation verifies if and only if it has exactly the four files, a manifest of schema 1 with this key and the length and digest of the package, and a good signature by the signer the manifest names over a package of this name and version. |
| `SignedStore.InstalledVerifies` | crates/sandbox-guard-core/src/profile_store.rs:172-246 | What installing writes passes every later re-verification and gives back the installed envelope. |
| `SignedStore.EnforceNameLimit` | crates/sandbox-guard-core/src/profile_store.rs:507-525 | Passes exactly if no hidden entry exists and the name is known or fewer than 64 are. |
| `SignedStore.EnforceVersionLimit` | crates/sandbox-guard-core/src/profile_store.rs:528-543 | Passes exactly if no hidden entry exists and fewer than 64 versions do. |
| `SignedStore.ProfileStore.Install` | crates/sandbox-guard-core/src/profile_store.rs:68-165 | Success publishes exactly one new entry, with the fields of the verified package and exactly its four files; a failure leaves the map as it was, unless a call was refused after the rename; without refused calls a well-signed package of allowed name is installed exactly if nothing hidden is in the way, fewer than 64 names or this one, and fewer than 64 versions but not this one, are there; a new orphan is left exactly if a clean-up was refused, and then nothing was published; the store invariant holds after every step. |
| `SignedStore.ProfileStore.Remove` | crates/sandbox-guard-core/src/profile_store.rs:323-489 | Success withdraws exactly one live entry; absence changes nothing; without refused calls it removes exactly the live keys; a new orphan is left exactly if the removal stopped after the rename, because inspecting, putting back or deleting the tombstone was refused. |
| `SignedStore.ProfileStore.List` | crates/sandbox-guard-core/src/profile_store.rs:251-315 | Lists exactly the entries of the directory tree, each once and intact, by name and then version, with the envelopes that were installed; unless a call of its own is refused it succeeds if and only if there is no orphan, and it fails for no other reason. |
| `SignedStore.ListingIsUnique` | crates/sandbox-guard-core/src/profile_store.rs:251-315 | A map has one listing only. |
| `SignedStore.LimitsHold` | crates/sandbox-guard-core/src/profile_store.rs:507-543 | Never more than 64 names, or 64 versions of one name. |
| `SignedStore.RunThenList` | crates/sandbox-guard-core/src/profile_store.rs:68-489 | After any run of requests, each of which finishes or fails at any point: nothing was published over a live version, the limits hold, and the listing is that of the map described by the history; it meets an orphan if and only if a request left a hidden directory behind on the way, by a refused clean-up or a refused inspection of a tombstone, or there was one to begin with. |
| `SessionStore.SessionDisk.PublishWorkspace` | crates/sandbox-guard-core/src/staging.rs:361-413 | Renames the validated workspace to a name that did not exist, or leaves all snapshots alone; without refused calls it succeeds exactly if the name is free. |
| `SessionStore.SessionDisk.Activate` | crates/sandbox-guard-cli/src/grok.rs:467-490 | Switches the pointer by a complete file or not at all; no snapshot changes. |
| `SessionStore.SessionDisk.CleanupOldSnapshots` | crates/sandbox-guard-cli/src/grok.rs:492-517 | Only directories whose name stands, in any spelling, for a snapshot that is neither active nor previous are ever touched: everything else is the same after every step, even when removals fail halfway; without refused calls no such directory is left. |
| `SessionStore.SessionDisk.Publish` | crates/sandbox-guard-cli/src/grok.rs:383-399 | The pointer stays or moves to the new validated snapshot; the previous snapshot is unchanged in every state of the run; without refused calls it finishes exactly if what came back is valid and the drawn names are free. |
| `SessionStore.SessionDisk.Open` | crates/sandbox-guard-cli/src/grok.rs:415-465 | Opening finds what the last pointer switch made current; without refused calls it fails exactly if that does not pass the validation of the present run, or lacks the session to be resumed. |
| `SessionStore.RunSessions` | crates/sandbox-guard-cli/src/grok.rs:383-517 | Over any sequence of runs, each stopped at any step: in every state the pointer is absent or names an existing snapshot that passed the validation of the run that published it and is what the last switch made current. |
| `ReviewGate.SaturationIsHarmless` | crates/sandbox-guard-cli/src/main.rs:1589-1597 | The mass-deletion test equals its unbounded meaning despite saturating multiplication. |
| `ReviewGate.MassDeletionIsMonotone` | crates/sandbox-guard-cli/src/main.rs:1589-1597 | Deleting more of the same baseline never makes it less of a mass deletion. |
| `ReviewGate.AssessChangeRisk` | crates/sandbox-guard-cli/src/main.rs:1569-1587 | Counts each kind exactly and flags exactly the mass deletions: everything, at least 50 files, or at least five files and a quarter of the baseline. |
| `ReviewGate.PhraseIsSpecific` | crates/sandbox-guard-cli/src/main.rs:1599-1606 | Assessments with the same phrase agree on the deletion count and the baseline size. |
| `ReviewGate.ConfirmationIsPhrase` | crates/sandbox-guard-cli/src/main.rs:1599-1606 | A text confirms if and only if it is the fixed wording around the decimal numerals of the two numbers. |
| `ReviewGate.DialogueIsDetermined` | crates/sandbox-guard-cli/src/main.rs:1476-1556 | For given lines and diff outcomes there is one dialogue: of two logs, the shorter begins the longer. |
| `ReviewGate.Prompt` | crates/sandbox-guard-cli/src/main.rs:1476-1556 | About the text that was typed, trimmed and in lower case: the log is the one dialogue that reads the lines in order, shows a diff after each `r`, `review` or `diff`, and reads a confirmation after each `a` or `apply` that may apply and deletes; it stops at the first keep, discard or authorised apply; proceeding is equivalent to a log that ends in `a` or `apply` where apply is on offer, with a shown diff before it if the deletion is mass, and the exact confirmation after it if anything is deleted; discarding is equivalent to ending in `d` or `discard`; keeping means ending in `k`, `keep` or an empty line, or running out of lines. |
| `ReviewGate.ReviewAndApply` | crates/sandbox-guard-cli/src/main.rs:1420-1567 | The host is touched only by an apply without rejections that the dialogue authorises, and that apply never asks for deletion authorisation; in an interactive session with something to review it runs exactly if the dialogue authorises it, and then result and host are those of the apply: success means a sound manifest, passed checks, the counts that were shown, and the described outcome; without refused calls and taken names and with one change per path it succeeds exactly if the manifest can be applied; if the first line says keep, the outcome is pending, and if it says discard, the bundle is thrown away, and the host is untouched in both cases. |

## Left out

- Durability: `fsync` is a call that can be refused; nothing is claimed about power loss.
- Overlapping processes: locks of the stores are calls that can be refused; the session property is for runs one
  after the other, since that store has no lock.
- Root checks of apply: canonicalisation and the owner and mode checks of the two roots are two flags.
- Change detection on the export tree during apply: the comparison of metadata before and after reading is not
  modelled, because nothing else writes to that tree.
- Inode numbers of the staged workspace and the export tree: all are zero, since no check depends on them.
- Executable bits in the end-to-end result: export compares contents only and a modified file keeps the mode of
  the host, so the end-to-end statements are about bytes and node kinds.
- The synthetic Git repository that staging makes by default: any contents of the top-level Git directory are
  allowed for, none are described.
- The 4 MiB bound on the event index file: 4096 records stay below it, since a record with a hostname of 253
  characters or five 64-bit numbers takes well under 1024 bytes.
- Candidate collection: the Git listing and the ignore-aware walk are an arbitrary finite sequence of paths given
  as components.
- Staging.BuildStage: does not narrow down failures with an I/O error, since candidates may collide in the
  workspace and any observation may be an error; the stored size of a manifest is an arbitrary function of it.
- Export.ExportChanges: does not narrow down failures on unreadable entries.
- SignedStore.ProfileStore.Install: the manifest is stored as a value; its JSON form and the 64 KiB bound on it
  are not modelled.
- Overlay.ApplyProfileOverlay: fields that no overlay can reach are one value with one validity flag, so the
  checks among them (names, arguments, credentials) are not spelled out.
- EventDerivation.EventsFromAudit: the record times of the truncation note and the summary are parameters.
- SessionStore.SessionDisk.Open: what passes the validation of a run is an arbitrary predicate on the content, one
  for each run; the layout rules of sessions are not spelled out.
- Removal of stale stages, uninstallation, setup and virtual machine orchestration.
- Ed25519, TOML and JSON parsing, time formatting and terminal output, including the diff that the review shows.
- The egress proxy, the seccomp helper, credential loading and command-line parsing.
