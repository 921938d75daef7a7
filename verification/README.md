# Distrópica: the crash-safe core, modelled and proved

Distrópica builds, signs and installs bootable media. What may go wrong between two system calls is decided in a few
places, and these are modelled here, together with the codecs and scans that they rest on. `dafny verify dfyconfig.toml`
checks everything.

**Publication.** Every protocol is a class whose methods are the steps of the program on directory state. A `life` counts
the system calls left before the process is killed; a method that reaches the end of it returns `Killed` with whatever
state it had reached. The theorems about runs start from nothing, go through an arbitrary list of cut runs and then let
one run finish.

* `Durability`, `LiveJournal`, `LiveSteps`, `LivePublish`: the redo journal of `command_publish`. Directories keep what is
  durable apart from what is queued; a power loss keeps any subset of the queue and scrambles unsynced files. `Inv` says
  that every state a power loss could leave now is a phase of one request.
* `MediaReady`, `MediaJournal`, `MediaMoves`, `MediaCarry`, `MediaPublish`, `MediaLimits`: create, seal, promote, roll back,
  clean up and recover in the media publisher, under process kills; what a recovery owes to the runs before it; and where
  its promises end.
* `LicenceTree`, `LicenceSteps`, `LicenceInstall`: generations named by hash, receipts and their residues, for every
  bundle that can be read.
* `EfiVersion`, `EfiRotation`, `EfiRuns`: which of the two boot images runs, their rotation on a small volume, and runs of
  updates, kills and reboots.

**Codecs, scans and arithmetic.** `Sha256`, `Sha256Stream` and `Sha256Example` (FIPS 180-4), `TreeStream`,
`TreeBytes`, `TreeOrder` and `TreeHash`, `Newc` and `NewcFind`, `ElfScan` and `ElfBytes`, `GnuTar` and `GnuTarWriter`,
`OrderedText`, `LiveLock` and `LiveLockVerify`, `Extraction`, `ExtractionWrite`, `Materialize`, `MaterializePasses`
and `MaterializeArchive`, `Gpt` and `GptWriter` (section 5.3 of UEFI 2.10), `EfiOption` and `EfiRegister` (sections
3.1.3 and 10.3.5 of UEFI 2.10), `CivilDate`. Each has a specification that does not mention the steps of the program,
the program's loops as methods proved against it, and the laws of the specification as lemmas. What is only ever
written, or written and read by the same functions, is also stated at literal offsets, on literal examples or in the
caller's numbers. `Options`, `Bytes`, `Buffers` and `Text` are shared.

**Where the code does less than it says.** These are theorems here:

* without renameat2 a kill between link and unlink of the media image leaves four finals that recovery refuses
  (`MediaPublish.RecoverAfterAnything`, `MediaLimits.KilledFallbackStrandsImage`);
* a media rollback goes on after a failed move, so the image can stay without its sidecars
  (`MediaPublish.Publisher.RollbackPromotion`, `MediaLimits.BrokenRollbackStrandsImage`);
* a licence bundle may hold an entry named as the receipt of a file beside it. If that entry is a directory or comes before
  the file, the bundle is never installed; if it comes after, a kill at the wrong moment blocks every later installation
  (`LicenceInstall.InstallAfterAnything`, `LicenceInstall.UncleanCanFail`, `LicenceInstall.ReceiptNameExample`). Without
  renameat2 no generation is ever published;
* with BootCurrent as the witness, a second update in one session removes the image that booted (`EfiRuns.OneSession`,
  `EfiRuns.TwoUpdatesLoseBooted`); a leftover temporary counts against the space check (`EfiRuns.LeftoverBlocksRetry`);
* `command_lock` renders licences that verification then refuses (`LiveLockVerify.RenderedVerifies`,
  `LiveLockVerify.ForeignLetterRefused`).

## Model

| member | source | states |
|---|---|---|
| `LivePublish.RecoverAfterAnything` | bootstrap/live/live-lock-helper.c:2129-2304 | After any sequence of runs for one request, each killed before any system call, mixed with power losses that drop any subset of unsynced directory operations and scramble unsynced files, one uninterrupted run succeeds: each of the four names holds the durable public file of its own hash and nothing else is there, and no journal. None of the fatal branches (a partial set without a journal, a quartet without READY) can be reached |
| `LiveJournal.PublishedIsFourFiles` | bootstrap/live/live-lock-helper.c:2266-2304 | A published state, name by name: EFI, components, runner proof and lock, each with the bytes of its own hash, one link each, and no other name |
| `LivePublish.GenerationsNeverMix` | bootstrap/live/live-lock-helper.c:2129-2304 | With runs for any requests in the history, every state a power loss can leave is safe for one single request; a run for `q` succeeds exactly when the outputs and REQUEST on disk are those of `q`, and a refused run changes no output |
| `LiveJournal.DurableSafety` | bootstrap/live/live-lock-helper.c:2158-2304 | In every state after any power loss: a durable EFI name implies three durable sidecars of the same request, COMMITTED implies all four outputs, outputs hold exactly the bytes of the request, and a partial set of outputs has a journal with READY |
| `LiveJournal.PowerLossKeepsInv` | bootstrap/live/live-lock-helper.c:2129-2304 | The invariant survives any power loss, including a second one during recovery |
| `LivePublish.CommandPublish` | bootstrap/live/live-lock-helper.c:2129-2304 | One run from any crash state: keeps the invariant, succeeds exactly on a compatible request, and dies only for a diverging output or REQUEST, with the outputs as they were |
| `LivePublish.EnsureStateFile` | bootstrap/live/live-lock-helper.c:1891-1924 | A state file exists with exactly the given bytes afterwards, by temporary, write, sync and rename, or the run dies without a change because it diverges; every cut stays within the invariant |
| `LivePublish.EnsureStageFile` | bootstrap/live/live-lock-helper.c:1998-2062 | A staged file is complete and durable under its final name, whatever partial copy was there; an existing one is verified and synced again |
| `LivePublish.ReconcileLink` | bootstrap/live/live-lock-helper.c:2064-2083 | The output is one more name of the staged file, made now or by a killed run; the EFI may only be linked when the sidecars are durable |
| `LivePublish.LinkOutputs` | bootstrap/live/live-lock-helper.c:2284-2293 | Sidecars, a sync of the parent, then the EFI and another sync: all four outputs are durable and quiet |
| `LivePublish.CleanupTransaction` | bootstrap/live/live-lock-helper.c:2099-2127 | The ordered removal of the journal, COMMITTED last, keeps the invariant at every cut and ends in the published state |
| `LivePublish.PublishComplete` | bootstrap/live/live-lock-helper.c:2214-2264 | Four outputs and a journal: finishes commit or cleanup for the request that REQUEST names, and refuses any other without a change |
| `LivePublish.DiscardKnownTemp` | bootstrap/live/live-lock-helper.c:1842-1850 | A partial temporary of the journal is removed and nothing else changes |
| `LivePublish.Disk.LosePower` | bootstrap/live/live-lock-helper.c:1713-1716 | A power loss keeps an arbitrary subset of the queued operations of each directory and leaves arbitrary bytes in files that were not synced |
| `Durability.SurvivorsAreSubsets` | bootstrap/live/live-lock-helper.c:1713-1716 | The crash states of a directory are exactly those that dropping some subset of its unsynced operations can leave |
| `LiveSteps.LinkStep` | bootstrap/live/live-lock-helper.c:2064-2083 | Linking one more output keeps every crash state within the invariant, provided the EFI comes after durable sidecars |
| `LiveSteps.RenameKeepsInv` | bootstrap/live/live-lock-helper.c:1852-1865 | Until the directory is synced a renamed file may be gone, temporary or final, and each of these is a state the protocol recovers from |
| `LiveSteps.UnlinkKeepsInv` | bootstrap/live/live-lock-helper.c:2085-2097 | Removing one journal name in the cleanup order keeps every crash state within the invariant |
| `LiveLockVerify.Verify` | bootstrap/live/live-lock-helper.c:1741-1785 | Verification of a LIVE_LOCK against the other documents accepts a text exactly when it is, byte for byte, what `command_lock` renders from them for some licence (printable, under 4096 bytes) and evidence |
| `LiveLockVerify.CommandLock` | bootstrap/live/live-lock-helper.c:1453-1501 | Renders exactly for a conclusive licence literal and documents that form one composition; the buffer never overflows |
| `LiveLockVerify.RenderedInjective` | bootstrap/live/live-lock-helper.c:1453-1501 | One lock text has one licence, one evidence and one set of documents, as far as a lock mentions them |
| `LiveLockVerify.RenderedVerifies` | bootstrap/live/live-lock-helper.c:1447-1451 | What `command_lock` renders is verified if and only if the licence is printable ASCII and shorter than 4096 bytes; longer or other licences are rendered and then refused |
| `LiveLockVerify.ForeignLetterRefused` | bootstrap/live/live-lock-helper.c:1110-1122 | A licence of one letter outside ASCII passes the check of `command_lock`, and what is rendered for it is refused |
| `LiveLockVerify.RefusedLiterals` | bootstrap/live/live-lock-helper.c:1110-1122 | No licence that is empty, `-`, NOASSERTION or NONE, has a separator or line break, or begins or ends with white space, is rendered or verified, nor evidence that is no lower-case SHA-256 or that of nothing |
| `LiveLock.ParseLock` | bootstrap/live/live-lock-helper.c:1525-1613 | Parses exactly the canonical texts of locks, and returns the content that determines the text |
| `LiveLock.ReadDocument` | bootstrap/live/live-lock-helper.c:1525-1570 | The header, eighteen ordered fields, schema and payload are read exactly when the lines have that form, and nothing may follow |
| `LiveLockVerify.LockUnique` | bootstrap/live/live-lock-helper.c:1525-1613 | A text is the lock of one content only |
| `LiveLockVerify.LockTextUnique` | bootstrap/live/live-lock-helper.c:1525-1613 | A content has one lock text only |
| `OrderedText.ReadFields` | bootstrap/live/live-lock-helper.c:1013-1024 | A run of ordered KEY=value lines is read exactly when each line has its key and a value within its buffer |
| `OrderedText.SplitFields` | bootstrap/live/live-lock-helper.c:1578-1592 | Splits into exactly `n` non-empty fields, or no such split exists |
| `OrderedText.OrderedValueIs` | bootstrap/live/live-lock-helper.c:1002-1024 | A value is read if and only if the next line is that key and an acceptable value |
| `MediaPublish.RecoverAfterAnything` | minipax/src/media.rs:2569-2673 | After any number of builds and recoveries of one invocation, each killed before any system call, one uninterrupted recovery publishes the bundle if and only if one was published or its READY was written, with the files that stood in stage and destination and exactly the seals that READY records; otherwise it leaves nothing; no stage and no tombstone stays. Without renameat2 it succeeds if and only if no kill fell between link and unlink of the image |
| `MediaPublish.SealedIsPublished` | minipax/src/media.rs:2569-2673 | With renameat2, a bundle that is published or whose READY was written outlives every later build and recovery, each killed anywhere and whatever those builds make, and one uninterrupted recovery publishes its files |
| `MediaCarry.KeptWhileHeld` | minipax/src/media.rs:2645-2669 | Between two states that hold the same bundle, sealed or published, every file of it is still there under its identity |
| `MediaPublish.Publisher.RecoverPublication` | minipax/src/media.rs:2569-2673 | Keeps the invariant at every cut; dies only for a doubled image, which it leaves as it is, or at an injected checkpoint. When it ends it reports a bundle if and only if the destination held four finals or the stage held READY, and then has carried it forward: the same files, with the seals of READY. Without checkpoints a cut run loses none of those files |
| `MediaJournal.ThreeFacts` | minipax/src/media.rs:1145-1206 | In every reachable state a final image implies its three final sidecars; READY implies that each member sits, with the identity it seals, in exactly one of stage and destination; one to three finals imply READY |
| `MediaReady.ReadyRoundTrip` | minipax/src/media.rs:1721-1854 | `parse_ready` reads back exactly the seals that `ready_bytes` wrote |
| `MediaReady.ReadyAcceptsOnlyItsOwn` | minipax/src/media.rs:1775-1854 | An accepted READY for canonical seals is the rendering of the seals it yields |
| `MediaReady.ReadyLines` | minipax/src/media.rs:1721-1773 | The lines of READY, one by one: eleven of the binding and nine of each member, under their names |
| `MediaReady.OwnedIs` | minipax/src/media.rs:1826-1839 | A seal that READY may record: on the device of the destination, of this user, with one link, and with no write bit in the octal digits of group and others |
| `MediaPublish.Publisher.FinishPublication` | minipax/src/media.rs:2675-2759 | Publishes exactly the staged members when they form a valid bundle; on failure everything is taken back or the journal stays recoverable |
| `MediaPublish.Publisher.Build` | minipax/src/media.rs:2761-2864 | From recovery to publication, the invariant at every cut, whatever the compositor leaves torn. Uninterrupted and without checkpoints it succeeds if and only if the image is not doubled and either a bundle was owed, which it then carries forward, or what it makes is a valid bundle, which then is exactly what it publishes; when it fails otherwise nothing is left |
| `MediaPublish.Publisher.CompletePromotion` | minipax/src/media.rs:2191-2229 | Promotes the sidecars and then the image, each with its sealed identity; stays a sealed prefix at every cut |
| `MediaPublish.Publisher.EnsureMemberState` | minipax/src/media.rs:2078-2137 | Promotes one member or recognises that it is already in place; a kill between link and unlink is completed for it |
| `MediaPublish.Publisher.RollbackPromotion` | minipax/src/media.rs:2309-2326 | Moves members back in reverse order and goes on after a failure: what remains in the destination is exactly the promoted members whose moves failed, and it fails if and only if something remains. An image in the destination has its sidecars if and only if it is not the case that all four were promoted, the move of the image fails and that of a sidecar does not |
| `MediaLimits.BrokenRollbackStrandsImage` | minipax/src/media.rs:2309-2326 | A concrete rollback after which the image is in the destination without any sidecar |
| `MediaLimits.KilledFallbackStrandsImage` | minipax/src/media.rs:2528-2552 | A concrete kill in the hard-link fallback after which recovery refuses the four finals |
| `MediaPublish.Publisher.RecognizeCompleteOutput` | minipax/src/media.rs:2528-2552 | Four finals are a published bundle exactly when each has one link and they match; anything else that is whole is refused |
| `MediaPublish.Publisher.MoveNoreplace` | minipax/src/media.rs:1995-2076 | A rename, or link and unlink: the member ends in the destination, and between the two calls it has both names |
| `MediaPublish.Publisher.MoveBackOwned` | minipax/src/media.rs:2231-2307 | Moves one promoted member back to the stage or fails with the member where it was |
| `MediaPublish.Publisher.WriteControl` | minipax/src/media.rs:1936-1957 | A control appears whole or not at all; every cut leaves a temporary that recovery reconciles |
| `MediaPublish.Publisher.ReconcileControlTemp` | minipax/src/media.rs:1903-1929 | A leftover temporary of a control is removed, the control itself stays |
| `MediaPublish.Publisher.CreateStage` | minipax/src/media.rs:1959-1980 | A new stage with OWNER and REQUEST, reached through recoverable states only |
| `MediaPublish.Publisher.CleanupStage` | minipax/src/media.rs:2455-2509 | Clears a stage without touching the destination; COMMITTED and READY go before what they describe |
| `MediaPublish.Publisher.CaptureAndRemoveStage` | minipax/src/media.rs:2371-2424 | The empty stage is moved into a private container and both are removed; a cut in between is recoverable |
| `MediaPublish.Publisher.RecoverStageCleanup` | minipax/src/media.rs:2426-2453 | Finishes the removal that a kill interrupted, and nothing else |
| `MediaPublish.Publisher.ValidateBundle` | minipax/src/media.rs:1575-1641 | Four names form a bundle exactly when every member is sealed, single-linked and consistent with the others |
| `MediaMoves.SplitIsSealed` | minipax/src/media.rs:2309-2326 | A rollback without failures leaves a prefix of the promotion order |
| `LicenceInstall.InstallAfterAnything` | minipax/src/licenses.rs:1684-1759 | After any installations of any bundles that can be read, each killed anywhere, mid-write prefixes and half-made hard links included, an uninterrupted rerun of a clean bundle succeeds if the kernel has renameat2: the directory named by the hash holds exactly the bundle and its staging is gone. No run for one bundle changes another. From nothing an installation succeeds if and only if the kernel has renameat2 and the bundle is in order; a bundle that is not in order is never published; one that is in order but not clean is never published after a kill while a temporary stands at the name of another entry |
| `LicenceInstall.UncleanCanFail` | minipax/src/licenses.rs:1413-1474 | The other half: for every bundle that is not clean there is a history of at most one killed run after which an uninterrupted installation dies. So every history converges if and only if no entry is named as the receipt of a file beside it |
| `LicenceInstall.Installer.Install` | minipax/src/licenses.rs:1684-1759 | One installation of any bundle that can be read, from any such state, keeps the invariant at every cut. A clean bundle fails only for want of renameat2, and so does a bundle in order the first time; killed by an exact count of calls it leaves the temporary of any chosen file; a staging with a file at such a name is refused for good, unchanged |
| `LicenceInstall.Installer.PublishFiles` | minipax/src/licenses.rs:1623-1636 | The files in archive order: a clean staging stays one; in a first run nothing is in the way of a bundle in order, and the calls made are exactly counted; finished at all, no receipt is left except as the name of an entry published after its file |
| `LicenceInstall.Installer.PublishFile` | minipax/src/licenses.rs:1321-1385 | Dies without a change if what is there is no residue of the file, and otherwise publishes it with content and mode, touching no other name; from nothing it takes an exact number of calls, and its temporary is there from the first of them to the move |
| `LicenceInstall.Installer.InspectResidue` | minipax/src/licenses.rs:1250-1297 | Classifies a file exactly when it is one of the four residues, and says which |
| `LicenceInstall.Installer.Reconcile` | minipax/src/licenses.rs:1299-1319 | A partial temporary is undone, an interrupted link pair is finished |
| `LicenceInstall.Installer.PreflightStaging` | minipax/src/licenses.rs:1413-1474 | Accepts a staging exactly when each file in it belongs to one entry, as one of its residues, and every directory is listed |
| `LicenceTree.PreflightAcceptsResidues` | minipax/src/licenses.rs:1413-1474 | For a clean bundle the preflight accepts a tree if and only if it is made of residues of that bundle |
| `LicenceTree.BlockedRefused` | minipax/src/licenses.rs:1433-1459 | A file at the receipt of another file that is also the name of an entry belongs to two entries: the preflight refuses the tree whatever else it holds |
| `LicenceTree.PublishedInOrder` | minipax/src/licenses.rs:1521-1592 | Where an installation went through, every entry named as a receipt is a file and comes after the file of that receipt |
| `LicenceTree.NextIsFree` | minipax/src/licenses.rs:1623-1636 | In a first run of a bundle in order nothing is in the way of the next file |
| `LicenceInstall.ReceiptNameExample` | minipax/src/licenses.rs:1229-1241 | A package with a file `.a` and a file named as the receipt of `.a`, in archive order whatever the digest: the first installation succeeds, and killed after five system calls it never does again |
| `LicenceTree.ReceiptsInjective` | minipax/src/licenses.rs:1229-1241 | A receipt determines the name and content it stands for |
| `LicenceInstall.Installer.MaterializeGeneration` | minipax/src/licenses.rs:1594-1637 | What it finishes, from whatever it finds, is exactly the bundle, and the bundle is in order; it touches no other tree, never fails on a clean staging, and not on a first run of a bundle in order |
| `LicenceInstall.Installer.PreflightGeneration` | minipax/src/licenses.rs:1476-1519 | An existing generation is checked for the exact inventory and every content before anything is changed |
| `LicenceInstall.Installer.VerifyGeneration` | minipax/src/licenses.rs:1521-1592 | Refuses anything but the exact bundle, then repairs modes only |
| `LicenceTree.MoveSteps` | minipax/src/licenses.rs:1321-1385 | A finished temporary becomes final by a rename, or by link and unlink through the linked residue |
| `EfiRuns.RunsByVersion` | minipax/src/boot_update.rs:159-286 | Over every run of updates, each killed before any file operation, and reboots through either file, with images of distinct versions, the image that booted the session stays whole at the current or the reserve path, and the space of the volume is conserved |
| `EfiRuns.RunsByBootCurrent` | minipax/src/boot_update.rs:250-286 | With the firmware as witness the same holds for sessions that bring one image each |
| `EfiRuns.OneSession` | minipax/src/boot_update.rs:250-286 | With the firmware as witness and any uninterrupted updates that fit, the image that booted is on the ESP after each of them if and only if the session started from the reserve, or no new image follows another new one |
| `EfiRuns.TwoUpdatesLoseBooted` | minipax/src/boot_update.rs:250-286 | A concrete session in which both updates succeed and the running image is gone |
| `EfiRuns.LeftoverBlocksRetry` | minipax/src/boot_update.rs:171-183 | A concrete state in which a leftover temporary makes the space check refuse a rotation that would have fitted without it |
| `EfiRuns.VersionsSpare` | minipax/src/boot_update.rs:250-286 | With distinct versions the header witness names the path that booted, and the rotation spares it at every moment |
| `EfiRuns.BuildsDistinguish` | minipax/src/boot_update.rs:223-247 | Images that carry the version texts of builds with different versions satisfy what the runs by version ask for |
| `EfiRuns.UpdateByVersion` | minipax/src/boot_update.rs:521-537 | One update with the header witness keeps the session's image and the space |
| `EfiRotation.KeepsBooted` | minipax/src/boot_update.rs:159-217 | A rotation keeps the image that booted if and only if it leaves its path alone, moves it into the reserve, or brings that same image |
| `EfiRotation.Volume.Rotate` | minipax/src/boot_update.rs:159-217 | The final pair of images, the states in between, the refusal exactly for an empty image or fewer free bytes, with those of the image that goes, than the new image and a mebibyte, the conserved space; after the check it never runs out |
| `EfiRotation.Volume.ReplaceCurrent` | minipax/src/boot_update.rs:102-128 | The current image is replaced in one step; a kill leaves the old image and at most a temporary |
| `EfiVersion.WitnessesAgree` | minipax/src/boot_update.rs:223-247 | An image that carries the version text of a build at 0x200 plus its pointer, and the /proc/version text of the same kernel, give the same release and version |
| `EfiVersion.HeaderTextIs` | minipax/src/boot_update.rs:219-231 | A text is read from an image if and only if "HdrS" stands at 0x202 and the text, ASCII without NUL, stands with a NUL behind it at 0x200 plus the 16-bit pointer at 0x20E |
| `EfiVersion.ImagesToldApart` | minipax/src/boot_update.rs:250-286 | When the firmware gives no answer, the version text of the running kernel names the current image if it is that build, otherwise the reserve if it is that one, otherwise neither |
| `EfiVersion.FirmwareAnswers` | minipax/src/boot_update.rs:257-273 | The firmware answers only for this partition: the reserve or the current image by its path in any ASCII case, the current one without a path, and nothing for another path |
| `EfiVersion.FormParses` | minipax/src/boot_update.rs:237-247 | Any text of the kernel's form parses to its release and version, with or without prefix |
| `Sha256Stream.DigestOfParts` | bootstrap/live/live-lock-helper.c:185-230 | Any split of a message across updates, followed by the final call, gives the digest of FIPS 180-4, sections 5.1.1 and 6.2, for every message under 2^64 bits; that this digest is the one of the standard is `Sha256Example` |
| `Sha256Example.AbcDigest` | bootstrap/live/live-lock-helper.c:131-230 | The digest of the standard's message "abc" is the published 32 bytes, through all 64 rounds |
| `Sha256Example.InitialValues` | bootstrap/live/live-lock-helper.c:185-193 | Each word of the initial hash value is the first 32 bits of the fraction of the square root of its prime |
| `Sha256Example.RoundConstants0` | bootstrap/live/live-lock-helper.c:131-148 | The first four round constants are the first 32 bits of the fraction of the cube root of their prime; `RoundConstants4` to `RoundConstants60` say so of the other sixty |
| `Sha256Stream.Context.Update` | bootstrap/live/live-lock-helper.c:195-210 | The state absorbs exactly the message so far followed by the new bytes |
| `Sha256Stream.Context.Final` | bootstrap/live/live-lock-helper.c:212-230 | Padding, length and output are those of the standard |
| `Sha256Stream.Context.Transform` | bootstrap/live/live-lock-helper.c:154-183 | The compression of one block equals the function of the standard |
| `TreeOrder.StreamIgnoresOrder` | bootstrap/live/live-lock-helper.c:448-552 | The hashed byte stream does not depend on the order of readdir at any depth, under every exclusion |
| `TreeOrder.StreamInjective` | bootstrap/live/live-lock-helper.c:414-576 | Two streams under one exclusion are equal if and only if the trees are equal in names, types, metadata, content digests and link targets of all that is not excluded |
| `TreeOrder.StreamIsTree` | bootstrap/live/live-lock-helper.c:414-576 | Without an exclusion two streams are equal if and only if the roots have the same metadata and the trees differ only in the order of their listings |
| `TreeOrder.SeenIsSorted` | bootstrap/live/live-lock-helper.c:435-446 | What is hashed of a directory is exactly its entries that are not excluded, in strict byte order |
| `TreeStream.FlatInjective` | bootstrap/live/live-lock-helper.c:448-552 | The pre-order records determine the tree |
| `TreeStream.RecordsInjective` | bootstrap/live/live-lock-helper.c:414-434 | A concatenation of records splits in one way only |
| `TreeStream.ExcludedByComponents` | bootstrap/live/live-lock-helper.c:441-446 | A path is left out if and only if the excluded path is itself or one of its parents, component by component |
| `TreeStream.JoinComponents` | bootstrap/live/live-lock-helper.c:477-490 | The relative path that the walk builds is the text of its components |
| `TreeBytes.LessIs` | bootstrap/live/live-lock-helper.c:435-439 | The order of names is that of the first byte in which they differ, a name before its extensions |
| `TreeBytes.NodeBytes` | bootstrap/live/live-lock-helper.c:500-536 | The record of a file, link or directory, byte by byte: its letter, the counted path, mode, owner, group, links and size most significant byte first, and the counted digest or target |
| `TreeBytes.StreamBegins` | bootstrap/live/live-lock-helper.c:562-570 | The stream begins with the name of the format, two NUL bytes, and mode, owner, group and links of the root |
| `TreeHash.HashDir` | bootstrap/live/live-lock-helper.c:448-552 | Fails exactly when a limit is exceeded, and otherwise feeds exactly the records of the sorted, pruned listing |
| `TreeHash.TreeDigest` | bootstrap/live/live-lock-helper.c:554-576 | The digest of the stream of the whole tree |
| `NewcFind.FindMember` | bootstrap/live/live-lock-helper.c:683-755 | Ends without overflow and accepts exactly the files that split into records, an empty TRAILER!!! and NUL bytes with one regular record of that name, at the returned range |
| `NewcFind.PrintedIsFound` | bootstrap/live/live-lock-helper.c:683-755 | In every archive within the limits that an encoder of the format prints, a name that one regular member has is found with its offset and size |
| `Newc.ArchiveUnique` | bootstrap/live/live-lock-helper.c:683-755 | A file is an archive in one way only, so no other range could have been returned |
| `Newc.PrintedIsArchive` | bootstrap/live/live-lock-helper.c:683-755 | What an encoder prints within the limits, with NUL bytes after it, is an archive as the walk defines it |
| `Newc.DataStands` | bootstrap/live/live-lock-helper.c:729-738 | The returned range holds the data of that member |
| `NewcFind.ParseHex8` | bootstrap/live/live-lock-helper.c:663-675 | Eight hexadecimal digits of either case, and their number |
| `Newc.SmallHexInverts` | bootstrap/live/live-lock-helper.c:663-675 | Numbers printed in small hexadecimal letters are read back |
| `ElfScan.Locate` | bootstrap/live/live-lock-helper.c:781-892 | Succeeds if and only if the header and table are acceptable, the blob ends in a trailer, occurs exactly once and lies inside one loadable segment; then returns where |
| `ElfScan.Scan` | bootstrap/live/live-lock-helper.c:838-876 | The windowed search finds exactly what a naive search over all start offsets finds, each start examined once across window boundaries |
| `ElfScan.ScanWindow` | bootstrap/live/live-lock-helper.c:838-876 | One window examines exactly its own starts |
| `ElfScan.HasTrailer` | bootstrap/live/live-lock-helper.c:807-836 | Whether TRAILER!!! stands in the last 4 KiB |
| `ElfScan.BytesEqual` | bootstrap/live/live-lock-helper.c:622-642 | Chunked comparison of two ranges is equality of the ranges |
| `ElfBytes.HeaderIsOk` | bootstrap/live/live-lock-helper.c:781-805 | A file that begins with an Elf64_Ehdr is accepted exactly if that is an x86-64 executable or shared object of version 1 whose program headers have 56 bytes each, between 1 and 0xFFFE of them, within the file |
| `ElfBytes.SegmentReads` | bootstrap/live/live-lock-helper.c:878-887 | Of the Elf64_Phdr at each number its type, file offset and file size are read |
| `GnuTar.ReadInvertsArchive` | minipax/src/licenses.rs:279-358 | A reader of the GNU format gets the entries back, LongLink paths included |
| `GnuTar.ArchiveInjective` | minipax/src/licenses.rs:279-358 | Different lists of entries have different archives |
| `GnuTar.ChecksumFits` | minipax/src/licenses.rs:239-267 | The checksum of a header always fits its six octal digits |
| `GnuTar.HeaderByOffset` | minipax/src/licenses.rs:239-267 | A header byte by byte: name, mode, owner and group 0, size, time 0, type and magic in their places, NUL elsewhere, and the checksum the sum of its bytes with eight spaces in its own place |
| `GnuTar.FinalLengthIsLeast` | minipax/src/licenses.rs:346-357 | The length is the least multiple of 10240 that covers the data and two zero blocks |
| `GnuTarWriter.WriteArchive` | minipax/src/licenses.rs:279-358 | Into any sink: succeeds exactly when every entry can be represented and the sink takes the whole archive, and then has written it |
| `GnuTarWriter.Validate` | minipax/src/licenses.rs:386-401 | Accepts a byte string if and only if it is the archive of the entries |
| `GnuTarWriter.CanonicalHeader` | minipax/src/licenses.rs:239-267 | Fills a header in place with the fields and checksum of the format |
| `GnuTarWriter.PutOctal` | minipax/src/licenses.rs:221-237 | The field holds the fixed-width octal form, or the number does not fit |
| `CivilDate.PartsAreRight` | minipax/src/media.rs:617-639 | The parts of an epoch, before the clamp of the year, are a valid proleptic Gregorian date and time with exactly that second count |
| `CivilDate.CountOrders` | minipax/src/media.rs:617-639 | The second count orders valid dates and times strictly, so the date of an epoch is the only one |
| `CivilDate.PartsIncrease` | minipax/src/media.rs:617-639 | The parts are strictly increasing lexicographically |
| `CivilDate.UtcPartsAreRight` | minipax/src/media.rs:617-639 | Within the years a FAT date can hold, the function is the calendar |
| `CivilDate.UtcPartsAre` | minipax/src/media.rs:617-639 | For every epoch: the parts of the calendar, with 1980 for every year before 1980 and 2107 for every year after 2107, and the last second of 63 bits for every epoch beyond |
| `CivilDate.DateIsRight` | minipax/src/media.rs:619-631 | The era formula yields the valid date with the right day number |
| `Gpt.PlanIsSound` | minipax/src/partition.rs:137-184 | A successful layout has adjacent ESP, root and swap within the disk, clear of both headers and tables, with at least 64 MiB of root |
| `Gpt.PlanExists` | minipax/src/partition.rs:137-184 | A layout exists if and only if the ESP has at least 16 MiB and, with 1 MiB before it and 64 MiB behind it, leaves a usable sector; it has a swap if and only if one is asked for and its size fits as well |
| `Gpt.PlanBounds` | minipax/src/partition.rs:137-184 | Every partition has sectors, between the primary and the backup copies |
| `Gpt.PartitionsApart` | minipax/src/partition.rs:137-184 | The partitions are disjoint from each other and from both copies of header and table |
| `GptWriter.WriteLayout` | minipax/src/partition.rs:128-269 | Dies, without a change, if and only if the sector size is none of the four, the ESP is under 16 MiB or the disk has no room for it and the root; otherwise writes exactly the five buffers of the plan, with a swap if and only if one is asked for and fits; until the last write the primary header is untouched |
| `GptWriter.FinishedLayout` | minipax/src/partition.rs:185-268 | The finished disk at every place: the protective MBR, both headers with every field where table 21 of UEFI 2.10 has it and their CRCs, and the same table twice with the planned partitions, their types, GUIDs and names as in table 23, and zeros behind them |
| `GptWriter.FinishedReadsBack` | minipax/src/efi_boot.rs:79-143 | After every finished layout the ESP is read back exactly as partition 1, and partition 2 is refused |
| `GptWriter.LayoutReadsBack` | minipax/src/efi_boot.rs:79-143 | The installer reads its own ESP back as partition 1 and no other number is one |
| `Gpt.EspReadsBack` | minipax/src/efi_boot.rs:79-143 | On any disk that holds this header and table, `le_esp` yields the ESP entry for number 1 and an error for every other |
| `GptWriter.BuildHeader` | minipax/src/partition.rs:70-97 | The header in its buffer, CRC over the first 92 bytes with its own field zero |
| `GptWriter.BuildEntry` | minipax/src/partition.rs:99-123 | One entry of 128 bytes, its name in UTF-16 |
| `GptWriter.Disk.WriteAll` | minipax/src/partition.rs:250-268 | Five ordered writes, each a splice of the contents; a kill leaves exactly the writes before it, so the primary header appears last |
| `EfiOption.ReadInvertsLoadOption` | minipax/src/efi_boot.rs:151-290 | `le_opcao` inverts `load_option` for every label and loader without NUL that fits the 16-bit lengths |
| `EfiOption.FullPathReads` | minipax/src/efi_boot.rs:246-290 | The partition and the path are found as well behind any nodes of other kinds that a firmware writes in front of them |
| `EfiOption.LabelReads` | minipax/src/efi_boot.rs:212-233 | The label of a written option is read back |
| `EfiOption.OptionByOffset` | minipax/src/efi_boot.rs:151-210 | Every option that fits has each of its fields at the offset where the standard has it |
| `EfiOption.PlainText` | minipax/src/efi_boot.rs:166-170 | Characters of the basic plane take two bytes each, the low one first |
| `EfiRegister.BuildOption` | minipax/src/efi_boot.rs:151-210 | The appended bytes are the load option of sections 3.1.3 and 10.3.5 of UEFI 2.10: active, the label, and at its offsets the partition number, first LBA, sector count, GUID and signature bytes of the HD node, the path of the File node and the end node |
| `EfiRegister.ReadNodes` | minipax/src/efi_boot.rs:246-290 | The walk over a device path stays in bounds and ends on every byte string, and reads its last HD and File nodes |
| `EfiRegister.Nvram.Register` | minipax/src/efi_boot.rs:410-468 | The entry is written under a number of its own label or the least free one, with the attributes in front and every field at its offset, and that number leads BootOrder |
| `EfiRegister.Nvram.NewOrder` | minipax/src/efi_boot.rs:443-463 | The number in front, the other numbers in their order |
| `EfiRegister.RegisterEntries` | minipax/src/boot_update.rs:291-297 | Reserve first, then current |
| `EfiRegister.BothInFront` | minipax/src/boot_update.rs:291-297 | Registering reserve then current puts current first and reserve second, and keeps every other entry in order |
| `EfiRegister.BothAgain` | minipax/src/boot_update.rs:291-297 | Registering both again changes no variable |
| `EfiRegister.EntriesInFront` | minipax/src/boot_update.rs:291-297 | On any NVRAM: the two entries in front, all else as before, and a repetition changes nothing |
| `EfiRegister.RegisteredAnswers` | minipax/src/boot_update.rs:257-273 | Once registered, BootCurrent answers current or reserve according to the loader that booted |
| `Extraction.DecodeEntries` | minipax/src/media_install.rs:544-638 | Accepts exactly the acceptable archives, for either treatment of contents, and returns their entries in order |
| `Extraction.AcceptedIsSmall` | minipax/src/media_install.rs:544-638 | What comes out of an accepted archive, kept or measured, stands for no more bytes than the limit, in at most 50000 entries with non-empty paths and modes below 4096 |
| `Extraction.CheckAncestors` | minipax/src/media_install.rs:624-637 | No entry stands below one that is not a directory |
| `Extraction.StaysInside` | minipax/src/media_install.rs:465-540 | Whatever an accepted overlay brings is in /etc, /root, /home or /srv and not in /etc/minitrue, and so is what its links lead to; no beginning of a link climbs above the root, and no other tree has links |
| `Extraction.NeverAboveRoot` | minipax/src/media_install.rs:481-507 | A target is followed if and only if it is relative and no beginning of it climbs above the root |
| `MaterializeArchive.WriteEntries` | minipax/src/media_install.rs:676-806 | Into a fresh directory nothing collides: the only failure is a second reading that does not deliver; the result is exactly the listed nodes with modes and implied parents |
| `MaterializeArchive.SecondPass` | minipax/src/media_install.rs:738-783 | Succeeds if and only if the archive brings every promised file, whole, once, and no other regular file |
| `MaterializeArchive.FromFile` | minipax/src/media_install.rs:666-674 | The two-pass form accepts, for an unchanged archive, what the in-memory form accepts and builds the tree of the same entries; for a changed one, exactly when the second reading delivers, with its contents |
| `MaterializeArchive.FromMemory` | minipax/src/media_install.rs:649-657 | Accepts exactly the acceptable archives and builds the tree they describe |
| `MaterializeArchive.OneTree` | minipax/src/media_install.rs:649-674 | Both forms build the same tree |
| `MaterializeArchive.SameDelivers` | minipax/src/media_install.rs:738-783 | An unchanged acceptable archive always delivers |
| `MaterializeArchive.AcceptableIsOk` | minipax/src/media_install.rs:544-638 | What is accepted has distinct paths below directories only, which is what writing needs |
| `ExtractionWrite.TreeUnique` | minipax/src/media_install.rs:676-806 | Entries with contents determine the tree |
| `ExtractionWrite.SortedOk` | minipax/src/media_install.rs:683-693 | Sorting keeps the entries |
| `Materialize.Destination.CreateDirAll` | minipax/src/media_install.rs:700-703 | Succeeds exactly when nothing on the way is other than a directory, and adds exactly the missing ones |
| `MaterializePasses.MakeDirectories` | minipax/src/media_install.rs:695-711 | All directory entries are there, and nothing that is not asked for |
| `MaterializePasses.MakeFiles` | minipax/src/media_install.rs:712-732 | All files with contents at hand are written, and the parents of the others are there |
| `MaterializePasses.MakeLinks` | minipax/src/media_install.rs:785-797 | All links, files untouched |
| `MaterializePasses.SetModes` | minipax/src/media_install.rs:798-805 | Every directory entry gets its mode, and nothing else changes |

## Left out

General

- Hostile concurrent writers, owner, group and device checks, inode stability between two looks at a file, flock, memfd
  sealing and failpoints.
- The text of error messages; an error is a constructor or `None`.
- SHA-256 is taken as injective wherever a hash stands for contents: the protocols compare contents or receipts as such.

Live publication and LIVE_LOCK

- LivePublish.CommandPublish: does not model journals with foreign names or a wrong mode, source files that change while
  they are copied, and the validation of the embedded image; making the journal gives a fresh directory.
- LiveLockVerify.Verify: starts from the other documents as records with what their parsers guarantee; the line formats of
  LIVE_COMPONENTS, LIVE_RUNNER_PROOF and LIVE_EMBED_PROOF are of the same kind and would only add easy members.

Media

- MediaPublish.RecoverAfterAnything: kills only, no power loss: recovery promotes from a READY that it has not synced again
  (minipax/src/media.rs:2641-2646), so the fsync calls change nothing in the model.
- MediaPublish.RecoverAfterAnything: no history holds a rollback of which a move failed, because it runs without the oracle
  of failing moves; that recovery completes what such a rollback has left is not stated.
- MediaPublish.Publisher.RollbackPromotion: starts with no member doubled, as `MoveBackOwned` does.
- MediaPublish.Publisher.MoveBackOwned: does not model the `.rollback` names of the fallback for a member that is doubled
  when it is moved back, so checkpoints may fail in the model only where renameat2 exists.
- MediaPublish.Publisher.ValidateBundle: the texts of OWNER, REQUEST, COMMITTED and of the sidecars are parameters of the
  job, not rendered.
- The composition of the payload, FAT formatting and the call of xorriso.

Licences

- LicenceInstall.Installer.Install: does not model the fixed directories above the media directory (they are there),
  branches that only a concurrent installer reaches, and checkpoints.
- LicenceTree.WellFormed: of what reading a bundle checks, the strict order of the spelled paths and the directories that
  entries need; a digest in a spelled name may compare either way. The manifest, package index and validation are left out.

EFI

- EfiRuns.RunsByBootCurrent: asks for one image per session; sessions with several are the subject of `EfiRuns.OneSession`,
  without kills.
- EfiRotation.Volume.Rotate: kills fall between file operations; no power loss, and clusters are at most 64 KiB.
- EfiVersion.FormParses: white space is that of ASCII and texts are code points, not UTF-8; loader paths are compared with
  ASCII case folding.
- EfiVersion.HeaderTextIs: a header text with a byte above 127 is read as nothing; the source reads it when it is UTF-8.
- EfiRegister.Nvram.Register: does not model Boot#### files with lower-case digits and the immutable flag of efivarfs.
- Finding the ESP through sysfs, mounting it, and the terminal.

Codecs and scans

- TreeHash.TreeDigest: the digests of files are given, special files and mount boundaries are left out.
- GnuTarWriter.WriteArchive: does not model sizes beyond `usize`.
- GnuTar.ReadInvertsArchive: speaks of entries whose paths hold no NUL.
- TreeStream.ExcludedByComponents: paths are sequences of names; that `--exclude` is relative and canonical is checked by
  the caller.
- NewcFind.FindMember: the digest of the member is left out, it is `Sha256Stream.DigestOfParts` of the range.
- GptWriter.WriteLayout: CRC32 is a parameter, random bytes and partition names are arguments, and requests do not overflow
  64 bits.
- CivilDate.PartsAreRight: computes on unbounded integers; no intermediate value leaves i64 in the range of the clamp.
- Extraction.DecodeEntries: the tar reader is a sequence of entries of which it hands over at most the declared size; a path
  is its components.
- MaterializeArchive.WriteEntries: the destination is new, so links that lead out of it while writing cannot exist; a
  destination that exists already is an error of `create_dir` and not modelled. Whether a failed extraction leaves files
  behind is not stated.
- minipax/src/main.rs, disco.rs, install_disk.rs, install.rs, profile.rs and tree.rs, minitrue, and the command line.
