# Invokrum: a verified model

Invokrum acquires instruction bundles, verifies them byte for byte, installs
them into a content-addressed store, composes overlay packs and records what it
did. This project models the parts of it that decide what is accepted and what
ends up on disk, and proves what they guarantee.

* **Store.** `InstallStore` is the install store as a transition system: any
  number of installers, one filesystem operation per step, any operation
  failing, any installer dying between two operations, recursive removal
  interrupted anywhere. `InstallSafety` proves what holds in every reachable
  state of every run; `InstallProgress` proves what one call achieves when
  nothing interferes; `InstallEvidence` proves what a receipt is still worth
  when anybody may rewrite the store between any two steps. `InstallWriter` is
  the code as it is written, a class whose every run is a run of that system.
* **Output.** `OutputStore` and `OutputSafety` do the same for writing one
  output file through a temporary name, a rename or hard link, and two drop
  guards, with inode numbers that may be reused. `OutputWriter` is the code as
  it is written, a class whose every run is a run of that system.
  `OutputIdentity` proves what the identity check after the commit buys,
  `OutputDurability` exactly when a reported success is there to stay.
* **Loaders and verification.** `UstarHeader` and `Ustar` are the bounded
  archive reader, `UstarFormat` and `UstarLayout` an exact description of what
  it accepts, block by block and as a whole, `UstarPrinter` the writer it
  inverts. `Directory` and `WalkDecides` are the
  directory walker and exactly which trees it accepts. `Candidate` is the merge
  verifier; `Loaders` shows that it cannot tell the two loaders apart.
  `Distribution` is the manifest they all rest on.
* **Packs.** `Pack`, `Compose` and `Document`: normalising and cross-checking a
  pack, composing a profile of it, writing it as a document and reading it back.
* **Evidence and codecs.** `Lock` (drift), `TreeDigest` (the installed-tree
  pre-image), `Sha256` (against FIPS 180-4, with `Sha256Example`), `Base64` (against section 4 of
  RFC 4648), `JsonDepth` (a byte scanner against a recursive walker).
* `Bytes` and `Sorting` hold byte strings, their order, and the stable sort;
  `Names` says exactly which identifiers, paths and digests are accepted.

Strings are sequences of bytes ordered lexicographically. The content digest is
an arbitrary function except in `Sha256`; nothing assumes it has no collisions.
The canonical encoder is an arbitrary function. A clock, a network and random
numbers are not needed by anything modelled. Metadata, permission and `fsync`
failures are choices of the environment; so is the inode number of a new file.

`dafny verify dfyconfig.toml` checks the whole project.

## What turned out false

* "A reported success leaves the output in place": the identity guard of a
  writer without `--force` compares first and removes afterwards, and a forced
  rename fits in between. From every directory without a target and with the
  two temporary names free, for any two contents,
  `OutputDurability.ForcedSuccessCanBeUndone` gives the run in which the forced
  writer succeeds and the directory ends with the names it had.
  `OutputDurability.SuccessesStayExactly` is the exact condition, checkable
  before anything starts: the property holds of a set of calls if and only if
  the target is there already, or there are not both a call with and a call
  without `--force` whose temporary names are free.
  `OutputSafety.RemovalNeedsGuard` says that this removal is the only one.
* The metadata limit of the archive reader can never be reported under the
  default limits (`UstarPrinter.ParseNeverReportsMetadataLimit`); the entry
  limit always comes first.
* The branch taken when the rename finds a root already there is dead while
  only installers touch the store (`InstallSafety.PromotionNeverRaces`).

## Model

| member | source | states |
|---|---|---|
| `InstallSafety.RootsAreComplete` | crates/invokrum-install-linux/src/store.rs:269-315 | in every reachable state of any interleaving, crashes included, a published root is exactly one bundle's file tree plus a record that says what the bundle is |
| `InstallSafety.RootsNeverChange` | crates/invokrum-install-linux/src/store.rs:292-309 | every state on the way is reached by a history, no later action of anyone changes or removes a root published by then, and no receipt is withdrawn |
| `InstallSafety.ReceiptVouches` | crates/invokrum-install-linux/src/store.rs:362-395 | a receipt means the root now has exactly the bundle's files with their lengths and digests, and a record that describes this bundle and publisher; a fresh one means this installer's rename published it |
| `InstallStore.RecordDescribes` | crates/invokrum-install-linux/src/store.rs:742-814 | the record bytes are the encoding, and a line feed, of a record with the bundle's subject, entry point, root identity, file list and publisher, whose tree digest is that of a text which decodes to that file list |
| `InstallSafety.ReceiptsAgree` | crates/invokrum-install-linux/src/store.rs:286-309 | all receipts ever issued for a subject are for the same file list and record bytes, and at most one reports a fresh installation |
| `InstallSafety.ProvenanceIsImmutable` | crates/invokrum-install-linux/src/store.rs:742-797 | with an encoder that keeps records apart, a root is never upgraded, downgraded or given another signer |
| `InstallSafety.OneHolderPerSubject` | crates/invokrum-install-linux/src/store.rs:538-567 | at most one live installer per subject is between creating the lock file and dropping it |
| `InstallSafety.QuarantineIsPrivate` | crates/invokrum-install-linux/src/store.rs:644-649 | no step of one installer, cleanup after success or failure included, changes or removes a quarantine directory another live one holds |
| `InstallSafety.PromotionNeverRaces` | crates/invokrum-install-linux/src/store.rs:296-308 | at the rename there is never a root yet, so the raced branch is dead |
| `InstallSafety.PerformKeeps` | crates/invokrum-install-linux/src/store.rs:269-315 | every action of any installer keeps the store invariant |
| `InstallSafety.ReachableInv` | crates/invokrum-install-linux/src/store.rs:269-315 | the store invariant holds after every history |
| `InstallSafety.MaterializeKeeps` | crates/invokrum-install-linux/src/store.rs:397-445 | between any two writes the quarantine tree is exactly the files so far, the directories so far and the current prefix |
| `InstallSafety.VerdictMeansContentsMatch` | crates/invokrum-install-linux/src/store.rs:377-381 | a passed verification of a root means its files are exactly the bundle's records |
| `InstallProgress.FreshInstallSucceeds` | crates/invokrum-install-linux/src/store.rs:269-315 | undisturbed, in every schedule of partial writes, installing a portable bundle publishes exactly its tree and a record that describes it, restores locks and quarantine, and reports a fresh installation |
| `InstallProgress.SomeHistoryInstalls` | crates/invokrum-install-linux/src/store.rs:269-315 | there is a history from the empty store that ends in a published root and a fresh receipt, so the theorems about histories are not empty |
| `InstallProgress.ReinstallReuses` | crates/invokrum-install-linux/src/store.rs:286-290 | undisturbed, installing again what a root holds leaves the store unchanged and reports reuse |
| `InstallProgress.VerifiesRoot` | crates/invokrum-install-linux/src/store.rs:362-395 | a root that holds the bundle and its record passes every check of the existing-installation path |
| `InstallProgress.Materialises` | crates/invokrum-install-linux/src/store.rs:397-445 | undisturbed, however the writes are split, materialisation ends with exactly the bundle's files and their directories |
| `InstallProgress.Promotes` | crates/invokrum-install-linux/src/store.rs:326-360 | undisturbed, however the record's writes are split, reverification and the record succeed and the rename publishes the complete tree |
| `InstallProgress.StagedTreePasses` | crates/invokrum-install-linux/src/store.rs:339-344 | the materialised tree of a portable bundle passes the directory inspection |
| `InstallProgress.CompleteTreePasses` | crates/invokrum-install-linux/src/store.rs:374-379 | and so does that tree with its record, under the allowance for it |
| `InstallProgress.VerifiesItself` | crates/invokrum-install-linux/src/store.rs:345-346 | a genuine bundle's own files verify against the manifest rebuilt from it |
| `InstallProgress.FailureTurnsToCleaning` | crates/invokrum-install-linux/src/store.rs:292-314 | while a quarantine path is held a call keeps it, ends in a receipt, or turns to cleaning exactly that path with the store untouched; every failed operation turns it to cleaning |
| `InstallProgress.FailureCleansUp` | crates/invokrum-install-linux/src/store.rs:311-314 | whatever step turned a call to cleaning with whatever error, the rest of the call, however the removal is split, removes its quarantine, drops the lock, keeps every root and reports that error |
| `InstallProgress.CreationFailureLeavesDirectory` | crates/invokrum-install-linux/src/store.rs:580-590 | the exception: a failure right after the quarantine directory was made leaves it behind |
| `InstallProgress.SingleFileIsPortable` | crates/invokrum-install-linux/src/store.rs:658-669 | every bundle of one plainly named file meets the conditions of the installation theorems |
| `InstallWriter.InstallCall.InstallBundle` | crates/invokrum-install-linux/src/store.rs:269-315 | every run of the code, whatever fails, is a run of the step system and ends with its outcome |
| `InstallWriter.InstallCall.AcquireLock` | crates/invokrum-install-linux/src/store.rs:538-567 | the checks before the lock and the lock file are the protocol's steps, error by error |
| `InstallWriter.InstallCall.CreateStaging` | crates/invokrum-install-linux/src/store.rs:569-598 | the attempts at a quarantine directory are the protocol's steps |
| `InstallWriter.InstallCall.Materialise` | crates/invokrum-install-linux/src/store.rs:397-445 | directories, creation and partial writes, file after file, are the protocol's steps |
| `InstallWriter.InstallCall.Reverify` | crates/invokrum-install-linux/src/store.rs:326-346 | inspection, reading and verification of the quarantine tree are the protocol's steps |
| `InstallWriter.InstallCall.BuildRecord` | crates/invokrum-install-linux/src/store.rs:742-797 | the record is put together field by field as specified, or refused |
| `InstallWriter.InstallCall.WriteRecord` | crates/invokrum-install-linux/src/store.rs:346-360 | creating, writing and reading back the record are the protocol's steps |
| `InstallWriter.InstallCall.PublishStage` | crates/invokrum-install-linux/src/store.rs:292-309 | the rename, its race and its failure are the protocol's steps |
| `InstallWriter.InstallCall.VerifyExisting` | crates/invokrum-install-linux/src/store.rs:362-395 | the verification of a root is the protocol's steps |
| `InstallWriter.InstallCall.CleanUp` | crates/invokrum-install-linux/src/store.rs:311-314 | removal at once or in pieces is the protocol's steps |
| `InstallEvidence.ReceiptNeedsEvidence` | crates/invokrum-install-linux/src/store.rs:326-395 | whatever others do to the store between its steps, a call with a receipt has seen the root as an exact tree, read every file as declared and its exact record; a fresh one has seen all that in quarantine too |
| `InstallEvidence.SuccessNeedsPortable` | crates/invokrum-install-linux/src/store.rs:275-284 | under any interference a receipt is only returned for a portable bundle with a fitting publisher and a record within its size: the conditions under which an undisturbed installation succeeds are necessary |
| `InstallEvidence.InspectedMeansPortable` | crates/invokrum-install-linux/src/store.rs:377-379 | a tree that passes the inspection with the record's allowance can only be a portable bundle's |
| `InstallEvidence.VerdictMeansSeen` | crates/invokrum-install-linux/src/store.rs:377-381 | a passed verification means every collected read had the length and digest of its file |
| `InstallStore.VerifiedIsGenuine` | crates/invokrum-install-linux/src/store.rs:676-701 | whatever verification hands out is a bundle the store's theorems apply to |
| `TreeDigest.InstalledTreeDigest` | crates/invokrum-install-linux/src/store.rs:799-814 | the growing vector is the pre-image of the record list |
| `TreeDigest.DecimalRoundTrip` | crates/invokrum-install-linux/src/store.rs:806-808 | a decimal length reads back as the number |
| `TreeDigest.PreImageRoundTrip` | crates/invokrum-install-linux/src/store.rs:799-814 | a decoder recovers every list of valid files from its pre-image |
| `TreeDigest.PreImageIsInjective` | crates/invokrum-install-linux/src/store.rs:799-814 | equal pre-images mean equal file lists |
| `OutputSafety.TargetIsWhole` | crates/invokrum-cli/src/output.rs:55-80 | in every interleaving the target is absent (only if it was at the start), the original, or one writer's complete bytes |
| `OutputSafety.NoClobberNeverReplaces` | crates/invokrum-cli/src/output.rs:206-225 | a step of a writer without force leaves a present target the file it is, except that its own guard may remove it |
| `OutputSafety.NoClobberRefusesExisting` | crates/invokrum-cli/src/output.rs:144-162 | a writer without force never succeeds over a target that was there from the start |
| `OutputSafety.IrregularTargetIsRefused` | crates/invokrum-cli/src/output.rs:144-162 | while the target is a symbolic link or a directory no writer, with or without force, in any interleaving, succeeds or touches anything |
| `OutputSafety.OneWriterWins` | crates/invokrum-cli/src/output.rs:206-225 | among writers without force, those that cannot start left aside, at most one succeeds, and from then on its bytes are the target's |
| `OutputSafety.CommittedWasVisible` | crates/invokrum-cli/src/output.rs:199-225 | a writer that reports success had its complete bytes at the target at some moment of the run |
| `OutputSafety.WrittenLeavesNoTemp` | crates/invokrum-cli/src/output.rs:65-79 | success leaves no temporary file, and needs its name to have been free at the start |
| `OutputSafety.BystandersAreKept` | crates/invokrum-cli/src/output.rs:164-171 | every other name in the directory keeps its file and contents |
| `OutputSafety.RemovalNeedsGuard` | crates/invokrum-cli/src/output.rs:281-297 | a target disappears in a step exactly if it is an identity guard's unfailed removal |
| `OutputDurability.SuccessesStayExactly` | crates/invokrum-cli/src/output.rs:55-80 | for every directory and every set of calls: a success leaves a target in place in all their runs if and only if the target was there before, or the calls whose temporary names are free agree on force |
| `OutputDurability.SuccessStaysPresent` | crates/invokrum-cli/src/output.rs:55-80 | under that condition every success in every run leaves the target present |
| `OutputDurability.ForcedSuccessCanBeUndone` | crates/invokrum-cli/src/output.rs:281-297 | without it, for any two contents, a run in which the forced writer succeeds, the other reports an error, and the directory has the names it had at the start |
| `OutputDurability.UndoneFromNothing` | crates/invokrum-cli/src/output.rs:281-297 | the smallest such run: an empty directory and two empty contents |
| `OutputSafety.PerformKeeps` | crates/invokrum-cli/src/output.rs:55-80 | every action of any writer keeps the output invariant |
| `OutputIdentity.SuccessIsValidated` | crates/invokrum-cli/src/output.rs:227-245 | unless inode numbers repeat, a writer gets past its validation only while the target is its own file: exactly its bytes, one link |
| `OutputWriter.WriteCall.WritePlatform` | crates/invokrum-cli/src/output.rs:55-80 | every run of the code, whatever fails, is a run of the step system |
| `OutputWriter.WriteCall.CheckTarget` | crates/invokrum-cli/src/output.rs:144-162 | the target check is the protocol's step |
| `OutputWriter.WriteCall.StageFile` | crates/invokrum-cli/src/output.rs:173-197 | creation, partial writes and the metadata check are the protocol's steps |
| `OutputWriter.WriteCall.CommitReplace` | crates/invokrum-cli/src/output.rs:199-204 | the forced commit is the protocol's steps |
| `OutputWriter.WriteCall.CommitNoClobber` | crates/invokrum-cli/src/output.rs:206-225 | the hard-link commit with its guard is the protocol's steps |
| `OutputWriter.WriteCall.ValidateTarget` | crates/invokrum-cli/src/output.rs:227-245 | the validation after the commit is the protocol's step |
| `OutputWriter.FileGuard.Drop` | crates/invokrum-cli/src/output.rs:281-297 | a disarmed guard does nothing; an armed one does the protocol's drop steps |
| `OutputWriter.UndisturbedWrite` | crates/invokrum-cli/src/output.rs:55-80 | undisturbed, however the writes are split, a call ends Written exactly if there is no target or a regular one and force, and each refusal says exactly what the target is; then only the target has changed, to a new file with exactly the bytes, or nothing has |
| `UstarLayout.ParseAcceptsExactlyArchives` | crates/invokrum-acquisition-archive/src/lib.rs:246-404 | accepted archives are exactly those tiled by headers, data, zero padding, two zero blocks and a zero tail whose members fit the manifest; the result is their files in order |
| `UstarLayout.ParseImpliesArchive` | crates/invokrum-acquisition-archive/src/lib.rs:264-362 | acceptance yields the tiling |
| `UstarLayout.ArchiveImpliesParse` | crates/invokrum-acquisition-archive/src/lib.rs:264-362 | the tiling yields acceptance |
| `UstarLayout.AdmitAllExactly` | crates/invokrum-acquisition-archive/src/lib.rs:282-329 | the counters and the collision set admit exactly the lists within all limits, without ASCII-case collisions and naming declared paths only |
| `UstarLayout.AcceptedIsTiled` | crates/invokrum-acquisition-archive/src/lib.rs:331-357 | no nonzero byte of an accepted archive lies outside a header or returned data |
| `UstarLayout.ParsedPathsAreDeclared` | crates/invokrum-acquisition-archive/src/lib.rs:364-376 | the returned paths are the manifest's, once each, each file within its size |
| `UstarLayout.LimitsFitInputBound` | crates/invokrum-acquisition-archive/src/lib.rs:21-46 | every archive within entry and payload limits with a minimal end mark fits the input bound |
| `UstarLayout.MetadataLimitIsSlack` | crates/invokrum-acquisition-archive/src/lib.rs:406-418 | under the default limits the entry bound fires before the metadata bound |
| `UstarPrinter.ArchiveRoundTrip` | crates/invokrum-acquisition-archive/src/lib.rs:608-651 | every writable entry list is taken for an archive and reads back as its file entries in order, byte for byte |
| `UstarPrinter.BuiltIsNotCompressed` | crates/invokrum-acquisition-archive/src/lib.rs:61-75 | a built archive is never taken for a compressed one, whatever its first name |
| `Ustar.SourceDecides` | crates/invokrum-acquisition-archive/src/lib.rs:61-75 | an archive is taken exactly if it does not start like a compressed one, or starts with a header, and is within the input bound |
| `UstarPrinter.BuildArchive` | crates/invokrum-acquisition-archive/src/lib.rs:637-651 | the writer lays exactly these members and two zero blocks |
| `UstarPrinter.HeaderRoundTrip` | crates/invokrum-acquisition-archive/src/lib.rs:420-498 | reading a written header gives back path, size and kind |
| `UstarPrinter.MetadataRoundTrip` | crates/invokrum-acquisition-archive/src/lib.rs:445-469 | the fields between magic and type of a written header pass and give the size |
| `UstarPrinter.PathRoundTrip` | crates/invokrum-acquisition-archive/src/lib.rs:478-495 | a written name reads back, a directory's trailing slash dropped |
| `UstarPrinter.ChecksumRoundTrip` | crates/invokrum-acquisition-archive/src/lib.rs:425-440 | writing the checksum does not change what it covers, it fits six digits and reads back |
| `UstarPrinter.FieldRoundTrip` | crates/invokrum-acquisition-archive/src/lib.rs:500-528 | zero-filled octal digits with trailing padding read back as the number |
| `UstarPrinter.ParseNeverReportsMetadataLimit` | crates/invokrum-acquisition-archive/src/lib.rs:406-418 | the metadata limit is never the reported failure |
| `UstarHeader.OctalFits` | crates/invokrum-acquisition-archive/src/lib.rs:522-527 | no field of at most 21 octal digits overflows the machine word |
| `UstarHeader.SumIsBounded` | crates/invokrum-acquisition-archive/src/lib.rs:426-437 | a header's checksum is bounded by its length, so it cannot overflow |
| `UstarFormat.HeaderAcceptsExactly` | crates/invokrum-acquisition-archive/src/lib.rs:420-498 | a block is read as an entry exactly if it has the magic, a checksum field that is the sum of all other bytes and eight spaces, readable numbers and texts in order, and names that path, size and kind |
| `UstarFormat.HeaderErrors` | crates/invokrum-acquisition-archive/src/lib.rs:420-498 | a refused block is reported as the first thing wrong with it, check after check |
| `UstarFormat.NoByteChangesUnnoticed` | crates/invokrum-acquisition-archive/src/lib.rs:425-440 | an accepted header with any one byte outside the checksum changed is refused |
| `UstarFormat.OctalDecides` | crates/invokrum-acquisition-archive/src/lib.rs:500-528 | a numeric field is read exactly as the octal number between its padding |
| `UstarFormat.TextDecides` | crates/invokrum-acquisition-archive/src/lib.rs:530-547 | a text field is read exactly as printable ASCII followed by zeros |
| `UstarFormat.ArchiveHeadersAreValid` | crates/invokrum-acquisition-archive/src/lib.rs:264-362 | an accepted archive consists of blocks that are headers in this sense, each with as much data as it says |
| `Ustar.ParseUstar` | crates/invokrum-acquisition-archive/src/lib.rs:246-362 | the imperative reader computes the specified outcome, error and path included |
| `Ustar.ScanEntries` | crates/invokrum-acquisition-archive/src/lib.rs:264-358 | the cursor loop terminates by a strictly growing block-aligned cursor and computes the specified outcome |
| `Ustar.TakeEntry` | crates/invokrum-acquisition-archive/src/lib.rs:282-355 | one turn of the loop computes the specified progress or error |
| `Ustar.Admission` | crates/invokrum-acquisition-archive/src/lib.rs:294-329 | nesting, collision, declaration and size checks of one header, error by error |
| `Ustar.Terminate` | crates/invokrum-acquisition-archive/src/lib.rs:378-404 | the end of the archive: second zero block, metadata bound, zero tail |
| `Ustar.CollectTree` | crates/invokrum-acquisition-archive/src/lib.rs:202-244 | the collected tree and its portability check are the specified ones |
| `Ustar.ParentDirectories` | crates/invokrum-acquisition-archive/src/lib.rs:211-219 | cutting at the last separator again and again reaches exactly the ancestor directories, all of them acceptable paths |
| `Ustar.FindUnobserved` | crates/invokrum-acquisition-archive/src/lib.rs:364-376 | the first declared file that was not seen |
| `Directory.LoadCandidate` | crates/invokrum-acquisition-linux/src/lib.rs:362-398 | the imperative load computes the specified outcome |
| `Directory.LoadDelivers` | crates/invokrum-acquisition-linux/src/lib.rs:362-398 | a load succeeds exactly when inspection does, and then delivers an exact tree's bytes, once each, in manifest order |
| `Directory.FromManifest` | crates/invokrum-acquisition-linux/src/lib.rs:292-315 | adding one file after another and then the allowed one collects the declared files and their directories, or refuses a path too deep |
| `Directory.ExpectedDirectories` | crates/invokrum-acquisition-linux/src/lib.rs:327-342 | joining component prefixes gives exactly the ancestor directories, or refuses too deep a path |
| `Directory.ObservedTree.Inspect` | crates/invokrum-acquisition-linux/src/lib.rs:439-535 | the recursion over one mutable observation computes the specified walk |
| `Directory.ObservedTree.RecordPath` | crates/invokrum-acquisition-linux/src/lib.rs:537-550 | recording a path finds exactly the ASCII-case collisions |
| `Directory.DirectoryCovers` | crates/invokrum-acquisition-linux/src/lib.rs:439-535 | a walk that succeeds has settled every node below the directory |
| `Directory.WalkAcceptsExactTree` | crates/invokrum-acquisition-linux/src/lib.rs:429-535 | walk and presence checks accept only the exact declared tree |
| `Directory.ExactTreeReads` | crates/invokrum-acquisition-linux/src/lib.rs:568-639 | in an exact tree every declared file reads back with its own bytes |
| `Directory.ReadFiles` | crates/invokrum-acquisition-linux/src/lib.rs:385-395 | the reading loop computes the specified outcome |
| `Directory.ReadDeclaredFile` | crates/invokrum-acquisition-linux/src/lib.rs:568-638 | reading one declared file of a tree computes the specified outcome, error by error |
| `Directory.ValidateComponents` | crates/invokrum-acquisition-linux/src/lib.rs:640-673 | the loop over the components above a file reports the first that is missing, a link or no directory |
| `Directory.FindMissing` | crates/invokrum-acquisition-linux/src/lib.rs:372-378 | the first declared file that was not observed |
| `WalkDecides.InspectDecides` | crates/invokrum-acquisition-linux/src/lib.rs:439-535 | inspection accepts exactly the declared trees without ASCII-case clashes and within the visible-entry limit |
| `WalkDecides.DirectoryDecides` | crates/invokrum-acquisition-linux/src/lib.rs:439-475 | on a clean tree the walk of a directory succeeds exactly if all nodes below fit the entry limit, and counts and records exactly those |
| `Candidate.VerifyCandidate` | crates/invokrum-acquisition/src/lib.rs:114-223 | the imperative verifier computes the specified outcome |
| `Candidate.CompareRecords` | crates/invokrum-acquisition/src/lib.rs:155-208 | the two-index loop is the merge |
| `Candidate.MeasureCandidates` | crates/invokrum-acquisition/src/lib.rs:124-143 | the summing loop finds the first size violation |
| `Candidate.FindDuplicate` | crates/invokrum-acquisition/src/lib.rs:145-153 | the adjacent-pair search finds the first duplicate |
| `Candidate.VerifyAcceptsExactly` | crates/invokrum-acquisition/src/lib.rs:114-223 | acceptance is exactly: subjects agree, limits hold, no path twice, and candidate and manifest records are the same; the result carries them in order |
| `Candidate.VerifyNamesLeastDifference` | crates/invokrum-acquisition/src/lib.rs:160-208 | once limits hold and paths are distinct, any failure names the least path where the records differ, and says how |
| `Candidate.VerifyIgnoresOrder` | crates/invokrum-acquisition/src/lib.rs:145-153 | permuting the candidates changes nothing about the outcome |
| `Candidate.VerifiedBundleKeepsManifest` | crates/invokrum-install-linux/src/store.rs:676-701 | the manifest rebuilt from a verified bundle is the original one |
| `Loaders.LoadersAgree` | crates/invokrum-acquisition-linux/src/lib.rs:439-550 | whenever both loaders accept the same files, in any archive order, verification has the identical outcome |
| `Loaders.PackedTreeVerifiesTheSame` | crates/invokrum-acquisition-archive/src/lib.rs:637-651 | packing a loadable tree, in any order, gives an archive that parses and verifies the same |
| `Loaders.DeclaredTreesAgree` | crates/invokrum-acquisition-archive/src/lib.rs:202-223 | components joined by one loader and cuts made by the other give the same files and the same directories |
| `Distribution.NewManifest` | crates/invokrum-distribution/src/lib.rs:208-254 | the imperative constructor computes the specified outcome |
| `Distribution.NormalizeAccepts` | crates/invokrum-distribution/src/lib.rs:208-254 | the constructor accepts exactly the lists of distinct paths within limits that hold the entry point, and returns a sorted permutation |
| `Distribution.NormalizeIsCanonical` | crates/invokrum-distribution/src/lib.rs:228-234 | declaration order changes neither the manifest nor the error |
| `Distribution.NormalizeIsIdempotent` | crates/invokrum-distribution/src/lib.rs:208-254 | a manifest is a fixed point of its constructor |
| `Distribution.AncestorIsValidPath` | crates/invokrum-distribution/src/lib.rs:36-53 | every ancestor directory of a bundle path is itself an acceptable path |
| `Names.BundlePathDecides` | crates/invokrum-distribution/src/lib.rs:36-53 | a bundle path is accepted exactly if it is at most so many printable ASCII bytes, none a backslash or colon, and a separator-joined list of names other than empty, dot and dot-dot |
| `Names.DigestDecides` | crates/invokrum-distribution/src/lib.rs:77-87 | a digest is accepted exactly as 64 lowercase hexadecimal digits |
| `Names.ClashDecides` | crates/invokrum-acquisition-linux/src/lib.rs:537-550 | two paths share a collision key exactly if they differ in nothing but the case of ASCII letters |
| `Pack.ConstructPack` | crates/invokrum-core/src/model.rs:185-284 | the imperative constructor computes the specified outcome, error included |
| `Names.IdentifierDecides` | crates/invokrum-core/src/model.rs:15-27 | an identifier is accepted exactly as 1 to 128 letters, digits, hyphens, underscores and dots |
| `Names.PackPathDecides` | crates/invokrum-core/src/model.rs:56-72 | a pack path is accepted exactly as a separator-joined list of names other than empty, dot and dot-dot, without backslash, colon and zero byte |
| `Pack.NewPackAccepts` | crates/invokrum-core/src/model.rs:185-284 | a pack is built exactly for consistent declarations and holds them in sorted order |
| `Pack.NewPackIgnoresOrder` | crates/invokrum-core/src/model.rs:203-210 | permuting classes, overlays, profiles or variables changes neither the pack nor the error, except which of several repeated identifiers of one kind is named |
| `Pack.AcceptedIsNormal` | crates/invokrum-core/src/model.rs:185-284 | an accepted pack is consistent, strictly ordered, and rebuilt unchanged from its own parts |
| `Pack.EnsureUniqueDecides` | crates/invokrum-core/src/model.rs:311-325 | the growing set reports a duplicate exactly if there is one |
| `Pack.SharedOrderDecides` | crates/invokrum-core/src/model.rs:212-216 | on sorted classes comparing neighbours finds every shared order |
| `Pack.CheckProfileDecides` | crates/invokrum-core/src/model.rs:235-273 | a profile passes exactly if it names known classes, meets every cardinality and selects distinct overlays of the right class |
| `Pack.FindRepeat` | crates/invokrum-core/src/model.rs:311-325 | the first identifier met a second time |
| `Pack.ValidateOverlays` | crates/invokrum-core/src/model.rs:221-233 | the overlay loop reports the first dangling reference |
| `Pack.ValidateProfile` | crates/invokrum-core/src/model.rs:235-273 | the profile loops report the first violation |
| `Pack.ValidateSelection` | crates/invokrum-core/src/model.rs:256-272 | the selection loop reports the first violation |
| `Pack.FindSharedOrder` | crates/invokrum-core/src/model.rs:212-216 | the first class order shared with its neighbour |
| `Compose.ComposeDelivers` | crates/invokrum-core/src/composition.rs:263-403 | for an accepted pack composition never misses an overlay, succeeds exactly if the selection is small enough and compatible, the source gives every overlay's bytes within the limit and the joined bytes fit, and yields segments with exactly those bytes in selection order joined by two line feeds |
| `Compose.UnknownProfileExactly` | crates/invokrum-core/src/composition.rs:269-273 | an accepted pack reports an unknown profile exactly when none has the identifier |
| `Compose.AcceptedSelectionResolves` | crates/invokrum-core/src/composition.rs:287-306 | every selected overlay is found, appears once, and class orders never decrease |
| `Compose.ChosenClass` | crates/invokrum-core/src/composition.rs:292-303 | every selected overlay belongs to the class it was selected under |
| `Compose.ClassBlock` | crates/invokrum-core/src/composition.rs:292-303 | each class's selections are one block of the whole, in the profile's order |
| `Compose.ComposedLength` | crates/invokrum-core/src/composition.rs:357-402 | the output has the sources' bytes plus two between neighbours, within the limit |
| `Compose.SearchIsFind` | crates/invokrum-core/src/composition.rs:295-300 | binary search on a pack's overlays finds what looking at each one finds |
| `Compose.AddSegmentsDelivers` | crates/invokrum-core/src/composition.rs:357-389 | the loop succeeds exactly if every source loads within its limit and the joined output fits |
| `Compose.FirstConflictFinds` | crates/invokrum-core/src/composition.rs:308-320 | no conflict is reported exactly if no selected pair is incompatible |
| `Compose.Compose` | crates/invokrum-core/src/composition.rs:263-285 | the imperative use case computes the specified outcome |
| `Compose.Resolve` | crates/invokrum-core/src/composition.rs:287-306 | the nested loops resolve the selections class after class |
| `Compose.RejectIncompatibilities` | crates/invokrum-core/src/composition.rs:308-320 | the nested loops report the first conflicting pair |
| `Compose.Assemble` | crates/invokrum-core/src/composition.rs:345-403 | the assembling loop computes the specified outcome |
| `Compose.CheckedSize` | crates/invokrum-core/src/composition.rs:405-420 | a checked sum succeeds exactly within the limit, overflow included |
| `Document.DocumentRoundTrip` | crates/invokrum-schema/src/lib.rs:311-454 | reading back what an accepted v1 pack is written as gives the same pack |
| `Document.DocumentDecides` | crates/invokrum-schema/src/lib.rs:312-393 | a document is read as a pack exactly if its schema is the supported one, every part says what the declaration of the same position says, and the pack built of those declarations is accepted |
| `Document.DocumentOrderIsIrrelevant` | crates/invokrum-schema/src/lib.rs:311-393 | documents that differ only in the order of their declarations, or of the incompatibilities inside them, are read alike |
| `Document.IdentifierSetDecides` | crates/invokrum-schema/src/lib.rs:223-239 | a list is read exactly if all its values are identifiers and none repeats, and then as the set of them |
| `Document.CollectIdentifierSet` | crates/invokrum-schema/src/lib.rs:223-239 | the set loop computes the specified outcome |
| `Document.IdentifierSetErrors` | crates/invokrum-schema/src/lib.rs:223-239 | a refused list is reported at its first value that is no identifier or repeats an earlier one, and as which of the two |
| `Document.OverlayErrors` | crates/invokrum-schema/src/lib.rs:330-343 | an overlay whose identifier, class or source is malformed is reported at the first of them |
| `Lock.NoDriftMeansSameLock` | crates/invokrum-integrity/src/lockfile.rs:304-342 | for a valid lock no drift is reported exactly when the whole lock is the one that would be built now, derived digests included |
| `Lock.DriftsExplain` | crates/invokrum-integrity/src/lockfile.rs:314-339 | each kind of drift is reported exactly when its part changed: the overlay set by count, class, name or place, an overlay's content by length or digest, by index |
| `Lock.DriftsAreOrdered` | crates/invokrum-integrity/src/lockfile.rs:306-342 | no drift is reported twice, and they come as pack, profile, overlays by index, output |
| `Lock.ValidLockIsDetermined` | crates/invokrum-integrity/src/lockfile.rs:364-397 | a valid lock's formats and both derived digests follow from the parts that are compared |
| `Lock.ValidLocks` | crates/invokrum-integrity/src/lockfile.rs:364-436 | exactly these locks are valid: v1 formats, SHA-256, at most 256 overlays, well-formed names and digests, and two derived digests that match what they cover |
| `Lock.ValidateLockfile` | crates/invokrum-integrity/src/lockfile.rs:364-397 | the checks, one after another, give the specified verdict |
| `Lock.BuildLockfile` | crates/invokrum-integrity/src/lockfile.rs:172-243 | the lock is built as specified, error by error |
| `Lock.DriftsDecide` | crates/invokrum-integrity/src/lockfile.rs:314-339 | no drift exactly if the four compared parts agree |
| `Lock.OwnCompositionLocks` | crates/invokrum-integrity/src/lockfile.rs:172-243 | a composition of an accepted pack is locked exactly if the digester is SHA-256 with well-formed digests, the overlays are few enough and everything encodes within its size; identities, profiles and derived digests are never at fault |
| `Lock.FreshLockVerifies` | crates/invokrum-integrity/src/lockfile.rs:172-243 | a lock that was built is valid and free of drift against itself |
| `Lock.VerifyWith` | crates/invokrum-integrity/src/lockfile.rs:304-342 | the pushing loop computes the specified report |
| `Sha256.Compute` | crates/invokrum-digest/src/lib.rs:90-114 | chunks, remainder and padding buffer compute the standard's hash of every message below 2^61 bytes, and the wrapped length's hash beyond |
| `Sha256.BigEndianKeepsValue` | crates/invokrum-digest/src/lib.rs:99-103 | the eight bytes of the length, and the four of a word, spell its value, most significant byte first |
| `Sha256.ProcessBlock` | crates/invokrum-digest/src/lib.rs:134-195 | updating the state in place is the standard's compression of the block |
| `Sha256.FillSchedule` | crates/invokrum-digest/src/lib.rs:136-151 | the schedule loop fills in the recursive message schedule |
| `Sha256.RunRounds` | crates/invokrum-digest/src/lib.rs:153-185 | the eight rotating variables are the standard's working variables after 64 rounds |
| `Sha256.FillPadding` | crates/invokrum-digest/src/lib.rs:97-103 | the 64- or 128-byte buffer holds the standard's padding |
| `Sha256.RotationsAgree` | crates/invokrum-digest/src/lib.rs:141-173 | the machine rotation is the standard's ROTR at every amount used |
| `Sha256.PadIsShortest` | crates/invokrum-digest/src/lib.rs:98-103 | the padding is the shortest that fills whole blocks |
| `Sha256.PadSplits` | crates/invokrum-digest/src/lib.rs:97-103 | padding the remainder pads the message |
| `Sha256Example.HashOfAbc` | crates/invokrum-digest/src/lib.rs:200-212 | the known hash of "abc", which depends on every constant, function and round |
| `Sha256.HashBlocksAppend` | crates/invokrum-digest/src/lib.rs:91-107 | hashing block runs one after the other hashes their concatenation |
| `Sha256.LowerHex` | crates/invokrum-digest/src/lib.rs:118-126 | the pushing loop computes the hexadecimal text |
| `Sha256.DigestTextIsValid` | crates/invokrum-distribution/src/lib.rs:77-87 | every computed digest's text is one the bundle types accept |
| `Sha256.HexIsInjective` | crates/invokrum-digest/src/lib.rs:118-126 | distinct digests have distinct texts |
| `Base64.DecodesExactlyEncodings` | crates/invokrum-cli/src/rpc.rs:396-466 | decoding gives these bytes exactly on their encoding: a bijection onto the accepted strings |
| `Base64.EncodeBase64` | crates/invokrum-cli/src/rpc.rs:396-420 | the chunk loop computes the encoding |
| `Base64.DecodeBase64` | crates/invokrum-cli/src/rpc.rs:422-466 | the chunk loop computes the decoding, error included |
| `Base64.SymbolInverse` | crates/invokrum-cli/src/rpc.rs:468-477 | a character decodes to a value exactly if it is that value's symbol |
| `Base64.GroupKeepsValue` | crates/invokrum-cli/src/rpc.rs:396-466 | the characters of a group are the standard alphabet's at four numbers that spell the same number as its bytes, most significant first |
| `Base64.SymbolIsStandard` | crates/invokrum-cli/src/rpc.rs:396-466 | the alphabet is the standard's |
| `Base64.GroupErrors` | crates/invokrum-cli/src/rpc.rs:422-466 | a refused group has misplaced padding, a character outside the alphabet or unused bits that are not zero, and each is reported as itself |
| `Base64.CharacterDecides` | crates/invokrum-cli/src/rpc.rs:468-477 | a character is read exactly as its place in the alphabet |
| `JsonDepth.ScannerAgreesWithWalker` | crates/invokrum-cli/src/rpc.rs:350-378 | on every text of every value without repeated keys, scanner and walker accept at the same limits |
| `JsonDepth.ScannerMeasuresDepth` | crates/invokrum-cli/src/rpc.rs:350-378 | on every text of every value the scanner accepts exactly up to its container depth |
| `JsonDepth.WalkerMeasuresDepth` | crates/invokrum-schema/src/strict.rs:265-400 | the walker accepts exactly that depth, distinct keys at every level, and no merge key where it is refused |
| `JsonDepth.TextsAreSpelledOut` | crates/invokrum-cli/src/rpc.rs:350-378 | one text of a value, byte by byte: an array of an escaped string and an object, with blanks of every kind |
| `JsonDepth.ValidateJsonDepth` | crates/invokrum-cli/src/rpc.rs:350-378 | the byte loop with its saturating counter computes the scan |
| `JsonDepth.WalkValue` | crates/invokrum-schema/src/strict.rs:375-400 | the recursive visitor with its key set computes the walk |

## Left out

- OutputIdentity.SuccessIsValidated: assumes that no inode number is given out twice during the run, because device and inode number are all the check compares; every other output theorem allows reuse.
- InstallSafety.ProvenanceIsImmutable: assumes that the record encoder keeps distinct records apart, because the encoder is an arbitrary function here; `ReceiptsAgree` needs no such assumption.
- The store and the output target are values passed from step to step, because their theorems are about interleavings; `OutputWriter` and `InstallWriter` tie the steps to code over mutable state.
- Real system calls, descriptors, device numbers, modification times and permission bits: each check of them is a choice of the environment. Power loss and what a disk keeps of unsynchronised writes are not modelled.
- The directory walker reads a tree that does not change; re-opening through pinned descriptors and the snapshot comparisons that detect change are left out.
- In `InstallSafety` the store starts empty and nobody but installers touches it; `InstallEvidence` drops both conditions.
- Cleanup and lock release after failures inside lock acquisition and quarantine creation: the code can leave files behind there, the model keeps them, and nothing is claimed about them going away.
- "An error means the output is untouched" is not claimed: the code can fail after its commit.
- Errors of the path and parent-directory checks before the first target check of the output protocol are one error here.
- Standard-library sorting, ordered sets and binary search: modelled by a stable insertion sort, sets listed in increasing order, and one halving search.
- Loop bodies inside the install store's writes: a file grows by any positive amount per step instead of by one buffer.
- JSON and YAML decoding, the YAML subset scan, declaration-count limits, and the JSON encoding of locks and records, which is an arbitrary function.
- Escapes inside JSON strings: which characters a written string stands for is an arbitrary function of it; tokens may be any text without quotes, brackets and braces, which includes every number and literal.
- Ed25519, trust rules, install orchestration, delivery and rendering, the host facade, command-line parsing, `invokrum-fs`, Python scripts, Nix and release tooling: straight-line code, or libraries this model does not see into.
- Error texts.
