# A model of the image builders and their filesystem commits

The runtime builds images deterministically and commits them to a filesystem that can fail, or change underneath it.
This project models that part in Dafny and proves what its design promises.  `dafny verify dfyconfig.toml` checks all
of it.

**The image builder** (`Tree`, `Scan`, `Admission`, `Links`, `RootFS`, `Entries`, `Cpio`, `Newc`, `NewcMeaning`,
`NewcSize`, `Estimate`, `Tar`; helpers in `Options`, `Bytes`, `Sorting` and `Split`).  A tree is scanned with an explicit
stack, sorted, grouped by inode, checked and printed as a `newc` cpio stream or as tar members.  The readers are written
down independently: the cpio reader follows the header table and the `cpio_file` grammar of the kernel's "initramfs
buffer format" and finds hard links by device and inode number, the tar reader follows the link-member rule of the ustar
interchange format.  Extraction produces an `Image`: names bound to nodes.  The main
results are `RootFS.TarRecoversTree` (the tar members of an accepted scan extract to the scanned tree, with exactly its
inode partition), `RootFS.NewcRecoversTreeIff` (the cpio stream does if and only if every object is encodable) and
`Estimate.EstimateCoversIff` (the admission estimate covers the stream of every encodable accepted tree with paths up to
a limit if and only if that limit is at most 397).

**Publication** (`Publication`, `Builds`, `Storage`).  `World` is a table from names to inodes, with a count of the free
inodes.  Before every primitive an environment may rebind any name but the private quarantine names, and a primitive may
fail before its effect; arbitrary scripts say both.  A log records every change the code itself makes, every
identity it observes and every step of work that has no effect on names (writing, syncing, an admission).
`SafeSince(log, from, own)` says that since `from` no change of the code rebound a name, and none took the last name of an
inode outside `own`.  A world is gentle if neither the recording of a fresh object's identity nor the removal of a
quarantined object fails: these are the two failures after which an object of the build's own has to stay.

**Generations and the selector** (`Identifier`, `Environment`, `Unmatched`, `Deployment`, `Activation`, `Lifecycle`).  `Store` holds
the generations, the stable links and the `current` selector; its trace holds the disk before and after every single
effect, so that a statement about the trace is a statement about every crash point.  `Run` plays an arbitrary sequence
of operations, each with its own fault, from an empty disk.  SHA-256 is a function parameter; injectivity is asked for
only on the inputs at hand.

**Binds** (`Binds`), **the hidden record** (`NativeRecord`, where a script says what somebody else does before each
primitive), **the chmod plan** (`Harden`, with the check of link targets in `Trust` and permission bits in `Modes`), **the
endpoint descriptor** (`Endpoint`).

Properties that do not hold of the code as it stands are stated with the exact condition under which they do:

- A `newc` field of 2^32 or more widens its header field, a name with a NUL is cut short, and an entry named
  `TRAILER!!!` ends the stream.  Record by record, stream by stream and tree by tree the condition is exact:
  `Cpio.RoundTripIff`, `NewcMeaning.StreamRoundTrip`, `NewcMeaning.MeaningPreserved`, `RootFS.NewcRecoversTreeIff`, with
  a tree in `RootFS.TrailerTreeLost`.
- The textual overlap test of bind destinations sees an overlap exactly when both destinations begin with the same
  number of slashes, and likewise the test for runtime-owned destinations: `Binds.OverlapTestExact`,
  `Binds.ProtectedExact`, with `Binds.OverlapMissed` and `Binds.ProtectedMissed`.  All binds of an accepted plan are in
  place at the end if and only if the copies agree wherever destinations lie inside one another: `Binds.SurvivesIff`,
  `Binds.Materialize`, with runs in `Binds.LostInside` and `Binds.LostAround`.
- With one failing primitive the rootfs builder leaves both outputs or neither unless the manifest existed before and
  the archive did not; then a failing removal leaves the archive alone: `Builds.BuildRootfs`, with a run in
  `Builds.ArchiveLeft`.
- A failing `activate` restores the exact prior links and selector unless the directory sync after a change fails:
  `Activation.Store.Activate`, `Activation.UndoRecorded`.
- The FIFO placeholder's identity is recorded by name after `mkfifo`.  In a directory that is quiet from that look on, the
  guard's changes are safe but for its own FIFO unless, at the look, another inode without a second name was at the
  record's name, the record was held as it was left and the quarantine name was free:
  `NativeRecord.HideAndRestore`; `NativeRecord.HiddenRecord.Enter` and `NativeRecord.HiddenRecord.Exit` say the same of
  their parts, the latter on the directory before the call, with a run in `NativeRecord.SwappedRun`.
- The storage-size pattern finds at most one match in every accepted text, and one if and only if the size stands on a
  line of its own between line feeds, padded with blanks and tabs, in ASCII digits: `Environment.MatchedOnce`, with
  texts in `Unmatched.PaddingHides` and `Unmatched.AcceptedUnmatched`.
- The estimate of 512 bytes per entry covers the streams of trees with paths of up to 397 bytes, and not of 398, though
  no file name has more than 255 bytes: `Estimate.EstimateCoversIff`.

## Model

| member | source | states |
|---|---|---|
| `Cpio.HexRoundTrip` | scripts/build-runtime-rootfs.py:265-268 | a number that fits the width is printed in exactly that many hexadecimal digits and read back |
| `Cpio.HexLower` | scripts/build-runtime-rootfs.py:265-268 | every digit printed is a decimal digit or a lower-case letter from a to f |
| `Cpio.HexWide` | scripts/build-runtime-rootfs.py:265-268 | a number that does not fit is printed wider |
| `Cpio.FieldsRoundTrip` | scripts/build-runtime-rootfs.py:267-268 | thirteen narrow fields occupy 104 bytes and read back in order |
| `Cpio.FieldsWide` | scripts/build-runtime-rootfs.py:267-268 | if some field is too wide, whatever the reader returns differs in such a field |
| `Cpio.ReadOne` | scripts/build-runtime-rootfs.py:265-273 | the reader recovers a fitting record at any position after its padding, with all thirteen fields, its name up to a NUL, and leaves the next record's padding |
| `Cpio.ReadWide` | scripts/build-runtime-rootfs.py:265-273 | a record with a wide field never reads back |
| `Cpio.RoundTripIff` | scripts/build-runtime-rootfs.py:265-287 | a stream ended by the trailer reads back as the records written if and only if each is readable: narrow, NUL-free, not named like the trailer |
| `Cpio.OnlyReadable` | scripts/build-runtime-rootfs.py:265-287 | whatever the bytes, only readable records come out of the reader |
| `Cpio.Emit` | scripts/build-runtime-rootfs.py:265-273 | the closure appends exactly the encoding of a record whose modification time, device numbers and checksum are zero, with its padding |
| `Newc.InoShared` | scripts/build-runtime-rootfs.py:249-285 | two entries carry one inode number if and only if they are one file: the same entry, or the same hard-link group |
| `Newc.InoRange` | scripts/build-runtime-rootfs.py:249-285 | the numbers used are exactly 1 to the number of files |
| `Newc.NumberGroups` | scripts/build-runtime-rootfs.py:249-256 | the pre-pass numbers exactly the groups, each by its first name's position among the files |
| `Newc.CountLinks` | scripts/build-runtime-rootfs.py:257-260 | every group's count is its number of members |
| `Newc.WriteNewc` | scripts/build-runtime-rootfs.py:248-287 | the emission loop writes the specified stream (only the first name of a file carries bytes, the trailer gets the next number), and its numbering equals the pre-pass |
| `NewcMeaning.LinkFound` | scripts/build-runtime-rootfs.py:274-283 | the extractor finds a later name of a file under its number, bound to the file's first name |
| `NewcMeaning.UnpackPrefix` | scripts/build-runtime-rootfs.py:274-287 | extraction of every prefix of the records succeeds and denotes that prefix of the entries |
| `NewcMeaning.ReadableIffEncodable` | scripts/build-runtime-rootfs.py:265-287 | every record is readable if and only if every entry is encodable |
| `NewcMeaning.StreamRoundTrip` | scripts/build-runtime-rootfs.py:248-287 | the stream of a scan reads back as its records if and only if its entries are encodable |
| `NewcMeaning.StreamPlain` | scripts/build-runtime-rootfs.py:265-268 | in every record read back from the stream the modification time, the device numbers and the checksum are zero |
| `NewcMeaning.MeaningEncodable` | scripts/build-runtime-rootfs.py:248-287 | whatever the stream, an image extracted from it has only encodable names and nodes |
| `NewcMeaning.MeaningPreserved` | scripts/build-runtime-rootfs.py:248-287 | reading and extracting the bytes gives exactly the entries (type, mode, owner, bytes or target of each path, and the hard-link partition) if and only if every entry is encodable |
| `NewcSize.RecordOffset` | scripts/build-runtime-rootfs.py:244-245 | every record starts at a multiple of four, at an offset in closed form |
| `NewcSize.StreamLength` | scripts/build-runtime-rootfs.py:244-287 | the exact length of the stream |
| `NewcSize.EstimateCovers` | scripts/build-runtime-rootfs.py:302-326 | payload plus 512 per entry plus 1024 covers the archive if names (with the target, for a symlink) have at most 397 bytes |
| `Estimate.EstimateCoversIff` | scripts/build-runtime-rootfs.py:302-326 | the estimate covers the uncompressed stream of every encodable accepted tree with paths (with the target, for a symlink) up to a limit if and only if the limit is at most 397, and likewise over trees whose file names have at most 255 bytes |
| `Estimate.LongArchivable` | scripts/build-runtime-rootfs.py:126-211 | the tree beyond the limit, 519 one-byte files in one directory, is accepted and encodable |
| `Entries.ParentEarlier` | scripts/build-runtime-rootfs.py:144 | in byte order the parent directory of an entry comes before it |
| `Entries.DirectoryFirst` | scripts/build-runtime-rootfs.py:144-287 | whenever an entry is extracted its parent is there and its own name is not |
| `Entries.DenotationUnique` | scripts/build-runtime-rootfs.py:248-287 | two images denoting the same entries have the same names, nodes and link classes |
| `Tar.LinkRefersBack` | scripts/build-runtime-docker-image-archive.py:51-53 | every link member names the path of an earlier regular member |
| `Tar.MembersPlain` | scripts/build-runtime-docker-image-archive.py:39-61 | every member has modification time zero, and only a regular one has a size or data |
| `Tar.WriteTar` | scripts/build-runtime-docker-image-archive.py:39-61 | the loop writes the specified members: the first name of a group whole, later ones as links to it |
| `Tar.UnpackPrefix` | scripts/build-runtime-docker-image-archive.py:39-61 | extraction of every prefix succeeds and denotes that prefix of the entries |
| `Tar.ArchivesAgree` | scripts/build-runtime-docker-image-archive.py:39-61 | both archives of one scan extract to the same names, nodes and link classes |
| `Tree.PathsDistinct` | scripts/build-runtime-rootfs.py:126-142 | a proper tree with safe names has no path twice |
| `Tree.ParentsInPreorder` | scripts/build-runtime-rootfs.py:126-142 | every listed path but the root lies directly below the root or below a listed directory |
| `Scan.PendingPushed` | scripts/build-runtime-rootfs.py:134-142 | pushing a directory's children in reverse order stacks their recursive preorder on what was pending |
| `Bytes.BelowMeans` | scripts/build-runtime-rootfs.py:139-144 | the order of paths and names is the lexicographic one on bytes |
| `Scan.PushChildren` | scripts/build-runtime-rootfs.py:138-142 | refuses exactly when some name is unsafe |
| `Scan.Walk` | scripts/build-runtime-rootfs.py:126-142 | the explicit stack visits the recursive preorder, each node once, and refuses exactly the trees with an unsafe name |
| `Scan.Observe` | scripts/build-runtime-rootfs.py:93-106 | the second walk builds the path-to-identity map of the tree it finds |
| `Scan.Revalidate` | scripts/build-runtime-rootfs.py:91-112 | accepts if and only if the two path-to-identity maps are equal |
| `Admission.SafeTarget` | scripts/build-runtime-rootfs.py:46-59 | true if and only if the target is absolute or no prefix of it climbs above the root, starting where the link is |
| `Admission.DirectoryDepth` | scripts/build-runtime-rootfs.py:49 | the depth counted is that of the link's parent directory |
| `Links.TargetCounted` | scripts/build-runtime-rootfs.py:46-59 | of a link below k directories an admitted relative target has, in every prefix, at most k more `..` than names |
| `Links.TopRefused` | scripts/build-runtime-rootfs.py:46-59 | a link directly below the root may not have `..` or anything that begins with `../` as its target |
| `Links.AdmittedInside` | scripts/build-runtime-rootfs.py:126-211 | every symlink anywhere in an admitted tree has an absolute target or one that stays inside, counted from its own place in the tree |
| `Admission.CheckXattrs` | scripts/build-runtime-rootfs.py:165-179 | accepts if and only if the attributes are overlay opacity, with one of its two values, on a directory |
| `Admission.CollectGroups` | scripts/build-runtime-rootfs.py:145-148 | the dictionary holds, per inode of a multiply linked regular file, its paths in order |
| `Admission.CheckLinks` | scripts/build-runtime-rootfs.py:155-160 | accepts if and only if every group has as many names as its inode has links |
| `Admission.NameGroups` | scripts/build-runtime-rootfs.py:149-152 | names the groups if and only if the paths of every group can be encoded |
| `Admission.MakeEntries` | scripts/build-runtime-rootfs.py:162-211 | admits if and only if every object is of a supported kind with accepted attributes and a contained target, and then gives each its entry and bytes |
| `Admission.ScanTree` | scripts/build-runtime-rootfs.py:126-211 | the scan succeeds if and only if names are safe, every group of multiply linked files can be named, the sorted list is admissible and the second walk agrees |
| `RootFS.SortedListing` | scripts/build-runtime-rootfs.py:144 | the sorted list is strictly ascending and has the members of the walk |
| `RootFS.PartitionIsInodes` | scripts/build-runtime-rootfs.py:145-152 | two entries share a hard-link name if and only if the objects share an inode |
| `RootFS.ScanGuarantees` | scripts/build-runtime-rootfs.py:126-211 | an accepted scan gives the printers a sorted list, closed under parents, consistent within groups |
| `RootFS.TarRecoversTree` | scripts/build-runtime-docker-image-archive.py:39-61 | the tar members of every accepted tree extract to it: every object's kind, mode, owner and bytes, and two names on one node exactly when they were one inode |
| `RootFS.NewcRecoversTreeIff` | scripts/build-runtime-rootfs.py:126-287 | the cpio stream of an accepted tree does so if and only if every object is encodable |
| `RootFS.TrailerTreeLost` | scripts/build-runtime-rootfs.py:287 | a tree holding a file named like the trailer: accepted, recovered from tar, not from the stream |
| `RootFS.RevalidationMeans` | scripts/build-runtime-rootfs.py:91-112 | the map comparison accepts a second tree if and only if the sorted lists of paths and identities are equal |
| `Publication.World.RemoveIfIdentity` | scripts/runtime_safe_publish.py:67-110 | in every interleaving it rebinds nothing and takes the last name of no inode but the expected one; undisturbed a normal return removed exactly the expected object with the inodes it held, or found another and changed nothing, a failure leaves the object under its own or the quarantine name, and a taken quarantine name refuses and changes nothing |
| `Publication.World.PublishExisting` | scripts/runtime_safe_publish.py:113-138 | in every interleaving the same safety, and a normal return means that the destination was seen to be the expected inode, the directories were synced last and nothing failed; undisturbed with at most one failure it moves the inode, or leaves the destination as it was, and in a gentle world the source is as it was or gone with its inodes, everything else as before |
| `Publication.World.Finish` | scripts/runtime_safe_publish.py:122-133 | the verification and removal of the source after the link, with the observation and the sync a normal return rests on |
| `Publication.World.PublishLinked` | scripts/runtime_safe_publish.py:122-138 | after the link it completes, or takes back both names, in a gentle world leaving exactly what was there before without the source |
| `Publication.World.AtomicWrite` | scripts/runtime_safe_publish.py:141-157 | the same for a freshly created file: only inodes it created itself may lose their last name, a normal return wrote and synced, and undisturbed with one failure in a gentle world a refusal leaves every name and the free inodes as they were |
| `Builds.BuildRootfs` | scripts/build-runtime-rootfs.py:336-345 | undisturbed with at most one failure: archive and manifest under their returned identities, or neither name changed, except that the archive may be left alone if the manifest was there and the archive was not; in a gentle world every name and the free inodes are then as before; without a failure and with free names both are published; in every interleaving the safety of publication, and a complete build wrote, synced and met no failure |
| `Builds.ArchiveLeft` | scripts/build-runtime-rootfs.py:341-345 | a run in which the archive is left alone |
| `Builds.Stage` | scripts/build-runtime-storage.py:214-233 | the staged root and its clone take one inode and one per imported object; the second admission then asks for two more |
| `Builds.MakeImage` | scripts/build-runtime-storage.py:235-276 | from the second admission to the published image at most two more inodes are in use at a time, and a published image keeps one |
| `Builds.Process` | scripts/build-runtime-storage.py:242-275 | a ready image was filled and checked without a failure and seen again under the identity it was created with |
| `Builds.WriteRecord` | scripts/build-runtime-storage.py:277-290 | publishes the metadata, or leaves its name alone and in a gentle world everything |
| `Builds.BuildImage` | scripts/build-runtime-storage.py:213-276 | up to the published image, what is left can be taken back, and without an image one failure is spent or the admission refused |
| `Builds.BuildRecord` | scripts/build-runtime-storage.py:277-297 | completed means metadata published and staging gone with all its inodes; otherwise one failure is spent and everything can be taken back |
| `Builds.Complete` | scripts/build-runtime-storage.py:290-297 | removes exactly the held staging directory with all its inodes, or one failure is spent |
| `Builds.Cleanup` | scripts/build-runtime-storage.py:298-318 | with no failure left it takes back staging, image and metadata and leaves the names and the free inodes of before the build, and after completion it changes nothing |
| `Builds.TakeAll` | scripts/build-runtime-storage.py:302-318 | takes back image, output and metadata in this order, and leaves the names and free inodes of before; a removal refused for its quarantine name leaves the rest in place |
| `Builds.BuildStorage` | scripts/build-runtime-storage.py:182-318 | undisturbed with at most one failure: exactly image and metadata added under their recorded identities, or both names as before; in a gentle world a build that does not complete leaves every name, staging and temporaries included, and the free inodes as they were; without a failure both are published if and only if the names were free and the first admission passed; whatever fails, at most four inodes and one per imported object are in use at any time, a completed build used exactly so many at its peak and keeps two, and the free inodes never fall to the reserve; in every interleaving the safety of publication, and a completed build took every step without a failure and saw both outputs under their identities |
| `Identifier.ComputeIdentifier` | scripts/manage-runtime-deployment.py:199-203 | the loop hashes the ascending name, NUL, digest, LF encoding of the file map |
| `Identifier.EncodeInjective` | scripts/manage-runtime-deployment.py:199-203 | that encoding determines the list, for NUL-free names and 64-digit hashes |
| `Identifier.EqualIdsEqualFiles` | scripts/manage-runtime-deployment.py:199-203 | equal identifiers mean equal file maps unless the digest collides on these inputs |
| `Identifier.CheckHex` | scripts/manage-runtime-deployment.py:268-297 | accepts exactly 64 lower-case hexadecimal digits |
| `Identifier.VerifyGeneration` | scripts/manage-runtime-deployment.py:268-297 | accepts if and only if the name, the known file set, every file's hash and the recomputed identifier agree |
| `Identifier.FreshVerifies` | scripts/manage-runtime-deployment.py:343-362 | what an installation just wrote verifies if and only if its file set is a known one |
| `Environment.ValidateEnvironment` | scripts/manage-runtime-deployment.py:122-161 | accepts if and only if every line is an assignment, comment or blank, the keys are exactly the known ones, once each, and every value has its form, the size in no more digits than `int` takes |
| `Environment.CollectValues` | scripts/manage-runtime-deployment.py:140-145 | the second pass builds the map the first pass checked |
| `Environment.CheckValues` | scripts/manage-runtime-deployment.py:146-161 | accepts if and only if both paths, both tokens, the size and the UUID have their forms and the mount is the managed one |
| `Environment.NormalizedExactly` | scripts/manage-runtime-deployment.py:146-150 | an absolute path equals its `normpath` if and only if it has no empty, `.` or `..` component and at most two leading slashes |
| `Environment.Codes` | scripts/manage-runtime-deployment.py:127-128 | line ends, spaces, blanks and digits by their code points |
| `Environment.DecimalValue` | scripts/manage-runtime-deployment.py:397 | the printed number reads back |
| `Environment.MatchCut` | scripts/manage-runtime-deployment.py:393 | every match splits the text into whole lines, blanks, the key, the digits, blanks and a line end |
| `Environment.CutMatches` | scripts/manage-runtime-deployment.py:393 | conversely, a text split so is matched |
| `Environment.MatchesCount` | scripts/manage-runtime-deployment.py:393 | there are at most as many matches as lines assigning the storage size |
| `Environment.SpliceParses` | scripts/manage-runtime-deployment.py:393-398 | replacing the digits of a match commutes with parsing: the new map is the old one with that key updated |
| `Environment.MatchedOnce` | scripts/manage-runtime-deployment.py:391-395 | an accepted text has at most one match, and one if and only if the size is on an LF-delimited line of its own, padded with blanks and tabs, in ASCII digits; every accepted LF or CRLF text padded so and with ASCII digits is such |
| `Unmatched.PaddingHides` | scripts/manage-runtime-deployment.py:391-395 | if the padding before the size begins with another space character, nothing matches |
| `Unmatched.AcceptedUnmatched` | scripts/manage-runtime-deployment.py:122-161 | there is an accepted text without a match |
| `Environment.UpdateIsSound` | scripts/manage-runtime-deployment.py:391-398 | after the splice the text is accepted again, parses to the updated map and matches once |
| `Deployment.MixedApplied` | scripts/manage-runtime-deployment.py:307-316 | after any number of rows each destination is as before or as at the end |
| `Deployment.AppliedConverges` | scripts/manage-runtime-deployment.py:300-316 | bringing the rows in line from any such mixture gives the same links |
| `Activation.CrashPointLinks` | scripts/manage-runtime-deployment.py:300-326 | at a crash point a destination is absent or its own managed link, one in both generations stays linked, and none in neither appears |
| `Activation.CrashPointConverges` | scripts/manage-runtime-deployment.py:300-326 | from every crash point the activation may be repeated, with the same links and selector as without the crash |
| `Activation.ActivatedLinks` | scripts/manage-runtime-deployment.py:300-326 | after activation a destination is linked if and only if the generation has its file |
| `Activation.UndoRecorded` | scripts/manage-runtime-deployment.py:317-326 | undoing the recorded changes restores the links if and only if no change went unrecorded |
| `Activation.Store.LinkAt` | scripts/manage-runtime-deployment.py:214-228 | the temporary link comes first and never stays, and the destination is as before or linked |
| `Activation.Store.Select` | scripts/manage-runtime-deployment.py:206-228 | the temporary link comes first and never stays, and the selector is as before or the new one; every crash point is one of the activation |
| `Activation.Store.Rollback` | scripts/manage-runtime-deployment.py:317-326 | created links gone, removed ones back, unless a temporary name is taken; every crash point is a mixture |
| `Activation.Store.ApplyRows` | scripts/manage-runtime-deployment.py:304-315 | the rows succeed unless a change is interrupted; the lists record every change but one interrupted after its effect |
| `Activation.Store.Activate` | scripts/manage-runtime-deployment.py:300-326 | refusal changes nothing, success gives exactly the generation's links and selector, a failure leaves the prior state if and only if it struck before its effect (or reselected the same generation), and every state on the way is a crash point |
| `Activation.Store.PreflightLinks` | scripts/manage-runtime-deployment.py:254-265 | accepts if and only if the selector is absent or names a verifying generation and every destination is absent or managed |
| `Lifecycle.RunSound` | scripts/manage-runtime-deployment.py:300-450 | along every safe trace the selector is absent or names an installed, verifying generation |
| `Lifecycle.RunImmutable` | scripts/manage-runtime-deployment.py:300-450 | a generation keeps its contents until it is explicitly removed |
| `Lifecycle.RunKeepsActive` | scripts/manage-runtime-deployment.py:300-450 | the active generation is never removed or changed |
| `Lifecycle.VerifiedContents` | scripts/manage-runtime-deployment.py:268-297 | a generation that verifies under the identifier of a file map holds that map, barring a collision on these inputs |
| `Lifecycle.ActivatedLinked` | scripts/manage-runtime-deployment.py:300-316 | after an activation a row's destination is its managed link if its file is there, absent if not, and every other path as before |
| `Lifecycle.CrashBetween` | scripts/manage-runtime-deployment.py:300-326 | at every crash point each path is as before or as that |
| `Lifecycle.DoActivate` | scripts/manage-runtime-deployment.py:300-326 | after success the links are those of the generation's files, after anything each path is as before or as that, and the selector the old one or the generation |
| `Lifecycle.InstallFiles` | scripts/manage-runtime-deployment.py:329-368 | for a process without leftovers it succeeds if and only if the preflight passes, the generation verifies or is staged with a known file set, the selector is the expected one and no fault meets the activation; success selects the identifier of the files, installed and verifying, and links exactly the rows whose file is there, other paths as before; after a failure each path is as before or so linked; no installed generation changes |
| `Lifecycle.Uninstall` | scripts/manage-runtime-deployment.py:422-438 | succeeds if and only if the preflight passes and no step fails; then every managed link and the selector are gone, and every generation and every other path are kept; after any run the preflight passes if and only if it did before |
| `Lifecycle.UninstallRepeated` | scripts/manage-runtime-deployment.py:422-438 | after any number of attempts that failed anywhere, one that does not fail leaves the disk that a single one would have left |
| `Lifecycle.RemoveDeployment` | scripts/manage-runtime-deployment.py:441-450 | succeeds if and only if the generation verifies, is not selected and the removal is not interrupted; removes exactly that generation |
| `Lifecycle.ResizeText` | scripts/manage-runtime-deployment.py:391-398 | edits if and only if the text is accepted with one match holding the old size; then the result is the splice, accepted, with that one key updated |
| `Lifecycle.EditActive` | scripts/manage-runtime-deployment.py:376-401 | gives the active generation's files with the edited environment if and only if sizes, preflight and text allow it |
| `Lifecycle.UpdateStorageSize` | scripts/manage-runtime-deployment.py:376-405 | for a process without leftovers it succeeds if and only if sizes, preflight, text, digest and installation allow it; success selects the active generation's files with only the environment edited, and links exactly their rows; a refused edit changes nothing, and after any other failure each path is as before or so linked |
| `Lifecycle.OnlyEnvironmentChanges` | scripts/manage-runtime-deployment.py:399-401 | the changed-files test sees exactly the environment, if its hash changed |
| `Lifecycle.Run` | scripts/manage-runtime-deployment.py:300-450 | over every sequence of operations and faults from an empty disk, every single effect is safe and every intermediate selector sound |
| `Binds.OverlapTestExact` | scripts/materialize-runtime-binds.py:233-235 | the textual test finds an overlap if and only if the component paths overlap and both texts have the same number of leading slashes |
| `Binds.OverlapMissed` | scripts/materialize-runtime-binds.py:154-157 | two accepted destinations that overlap unseen |
| `Binds.ProtectedExact` | scripts/materialize-runtime-binds.py:230-232 | the runtime-owned test covers exactly the protected first components under a single leading slash |
| `Binds.ProtectedMissed` | scripts/materialize-runtime-binds.py:230-232 | a runtime-owned destination that passes the test |
| `Binds.OwnedExactly` | scripts/materialize-runtime-binds.py:230-232 | the runtime-owned test written out |
| `Binds.CanonicalExactly` | scripts/materialize-runtime-binds.py:154-157 | the test on `PurePosixPath` accepts exactly the destinations whose components after the root are plain names, at least one |
| `Binds.CheckRecord` | scripts/materialize-runtime-binds.py:220-242 | a record passes if and only if it is not runtime-owned, does not overlap an earlier one, is no directory seed and is canonical |
| `Binds.MakeParents` | scripts/materialize-runtime-binds.py:160-168 | succeeds if and only if no parent is anything but a real directory, and adds only missing parents |
| `Binds.DestinationPath` | scripts/materialize-runtime-binds.py:154-192 | succeeds if and only if parents are real directories and an existing target has the source's kind; then an empty object of that kind with the fixed mode stands there, missing parents were made with theirs, and nothing else changed |
| `Binds.ClashRefused` | scripts/materialize-runtime-binds.py:169-192 | a bind can be placed if and only if its destination is canonical, its parents are real directories where they exist, and no link, special file or object of another kind than the source is there |
| `Binds.SubtreeSurvives` | scripts/materialize-runtime-binds.py:154-192 | such a rewrite keeps every subtree that does not overlap its path |
| `Binds.PrefixFree` | scripts/materialize-runtime-binds.py:233-236 | accepted destinations with equal roots are pairwise not prefixes of one another |
| `Binds.OneRootApart` | scripts/materialize-runtime-binds.py:233-236 | a plan written with one kind of root lies apart |
| `Binds.SurvivesIff` | scripts/materialize-runtime-binds.py:154-266 | a bind survives the placement of another if and only if their copies agree wherever one destination lies inside the other, whichever encloses |
| `Binds.PlaceKeeps` | scripts/materialize-runtime-binds.py:229-266 | placing a bind keeps all earlier ones of a compatible plan |
| `Binds.PlaceOne` | scripts/materialize-runtime-binds.py:248-266 | succeeds if and only if the destination can be placed and the source's manifest is the same before, after and for the copy |
| `Binds.PlaceableKept` | scripts/materialize-runtime-binds.py:154-192 | placing an object does not decide whether one that lies apart from it can be placed |
| `Binds.Admit` | scripts/materialize-runtime-binds.py:220-247 | admits if and only if the destination is acceptable beside the earlier ones and the running totals stay within the limits |
| `Binds.Materialize` | scripts/materialize-runtime-binds.py:195-283 | a plan that lies apart succeeds if and only if it has at most eight binds, all admitted, within the total limits, faithfully copied and each placeable in the initial tree; after success of any plan every bind has its copied subtree if and only if the plan is compatible, with the admitted manifests and totals, and nothing outside the destinations but missing parents changed; in a plan that lies apart every placed bind is in place after any number of them, also of a failing run, and an object of another kind at a destination makes the run fail and stays as it was |
| `Binds.LostInside` | scripts/materialize-runtime-binds.py:229-266 | a run of two accepted binds whose second, inside the first, changes it |
| `Binds.LostAround` | scripts/materialize-runtime-binds.py:229-266 | a run of two accepted binds whose second, around the first, removes it |
| `NativeRecord.SwappedRun` | scripts/runtime_native_record_fault.py:182-220 | a run in which a foreign file is recorded as the placeholder and loses its only name at the exit |
| `NativeRecord.IdentityExactly` | scripts/runtime_native_record_fault.py:28-30 | the nine compared numbers agree if and only if inode, kind, owner, group, mode, links, size and both times do, and but for the change time likewise |
| `NativeRecord.HiddenRecord.Bind` | scripts/runtime_native_record_fault.py:136-168 | changes nothing; after success, whatever interfered, bytes and identity are those of a private bounded file at the name that describes the export; still and without a failure it succeeds if and only if there is such a record and its process runs |
| `NativeRecord.HiddenRecord.Hide` | scripts/runtime_native_record_fault.py:173-190 | whatever interferes it overwrites and unlinks nothing; alone the record keeps exactly one of the two names after every change; quiet it succeeds if and only if the held name is free and the process runs |
| `NativeRecord.HiddenRecord.PlacePlaceholder` | scripts/runtime_native_record_fault.py:182-187 | the recorded identity is one seen at the name; alone it is the new FIFO's, and after a swap before the look it is the foreign file's |
| `NativeRecord.HiddenRecord.CheckHidden` | scripts/runtime_native_record_fault.py:118-134 | observes only, and quiet it succeeds if and only if held file and placeholder are as they were left and the process runs |
| `NativeRecord.HiddenRecord.RemovePlaceholder` | scripts/runtime_native_record_fault.py:207-220 | whatever interferes, only the recorded placeholder may lose its last name; quiet it succeeds if and only if the name still is the recorded one, and otherwise changes nothing |
| `NativeRecord.HiddenRecord.Exit` | scripts/runtime_native_record_fault.py:195-231 | whatever interferes, nothing is overwritten and only the recorded inode may lose its last name; after a normal return, which compared and synced, the record has its name again with the bytes that were bound; quiet it restores if and only if everything is as left, and otherwise changes nothing, and its changes are safe but for the FIFO made if and only if that was recorded, or the record is not restorable, or the recorded inode has another name before the call; alone the record has exactly one of its names throughout |
| `NativeRecord.HiddenRecord.Enter` | scripts/runtime_native_record_fault.py:170-193 | the same safety including the exit after a failure; a normal return compared the bytes and synced; in a directory quiet from the look on it succeeds if and only if the look saw a private FIFO, the record is held as left and its process runs, and otherwise takes the last name of a foreign file if and only if the look saw one with no other name and nothing refuses its removal; alone the recorded inode is the FIFO made and the record has exactly one of its names throughout; quiet it succeeds if and only if the record can be bound and the held name is free; with a swap before the look it refuses and the foreign file loses its last name |
| `NativeRecord.HideAndRestore` | scripts/runtime_native_record_fault.py:170-231 | over the whole protocol: the same safety in every interleaving; in a directory quiet from the look on, changes that are safe but for the FIFO made if and only if the look did not see a foreign file that has no other name and whose removal nothing refuses; exactly one of the two names after every change when alone; and in a quiet directory the same names, the same inode and the same bytes at the end |
| `Modes.ExposedBits` | scripts/harden-kerf-installation.py:102 | a mode is exposed if and only if the group's or the others' write bit is set |
| `Modes.ClosedBits` | scripts/harden-kerf-installation.py:115 | the closed mode has both bits clear, every other bit as before, and is the old mode if none was set |
| `Harden.Examine` | scripts/harden-kerf-installation.py:57-85 | one entry passes if and only if owner, kind, link count, link target and the running bounds allow it |
| `Harden.Ancestors` | scripts/harden-kerf-installation.py:20-24 | accepts if and only if every directory above the tree is a real one of a trusted owner and closed, or sticky and root's |
| `Harden.CheckAncestor` | scripts/harden-kerf-installation.py:20-24 | one directory above the tree passes if and only if it is real, of a trusted owner, and closed or sticky and root's |
| `Harden.Inspect` | scripts/harden-kerf-installation.py:49-93 | on a proper tree acceptance depends on the directories above it and on owners, kinds, link counts, link targets and bounds alone: the closure test never refuses; the rows are those of the walk |
| `Harden.ParentsInspected` | scripts/harden-kerf-installation.py:87-92 | the ancestor closure test passes if and only if every ancestor of every row is the row of a directory |
| `Harden.WalkClosed` | scripts/harden-kerf-installation.py:87-92 | it passes on the rows of a complete walk |
| `Harden.SingleLinks` | scripts/harden-kerf-installation.py:63 | two rows of a tree that was accepted never name one inode, if one of them is to be changed |
| `Harden.SortOrdered` | scripts/harden-kerf-installation.py:103 | the plan has directories before files, shallow before deep, and then the order of names |
| `Harden.PlanOrderMeans` | scripts/harden-kerf-installation.py:103 | of two steps of the plan the earlier is a directory if the later is one, among equals no deeper, and at one depth its joined name does not come later in the order of strings |
| `Harden.PlanIsGood` | scripts/harden-kerf-installation.py:102-103 | the plan of a fresh inspection names each exposed object once, in that order |
| `Harden.AncestorsFirst` | scripts/harden-kerf-installation.py:102-116 | when an entry's turn comes all its ancestors are already closed to group and others |
| `Harden.PlanHardens` | scripts/harden-kerf-installation.py:104-116 | the whole plan closes every non-symlink entry, changes nothing but modes and change times, and nothing outside the tree |
| `Harden.HardenedTightens` | scripts/harden-kerf-installation.py:99-117 | to the check of link targets a hardened tree is the old one with write access taken away in places |
| `Harden.InspectAgain` | scripts/harden-kerf-installation.py:117-119 | the second inspection accepts, links included, its content rows (bytes of files, targets of links) equal the first ones and no writable entry is left |
| `Harden.HardenedBits` | scripts/harden-kerf-installation.py:104-116 | bit by bit: of every entry that is not a link the two write bits are clear and nothing else of the mode differs, and links are as they were |
| `Harden.ContentsExactly` | scripts/harden-kerf-installation.py:117-118 | the compared content rows agree if and only if path, kind, owner and hashed content of every row do |
| `Harden.CodeTree.Protect` | scripts/harden-kerf-installation.py:105-116 | changes the mode if and only if the object is still the planned one, and only the two write bits |
| `Harden.CodeTree.ProtectAll` | scripts/harden-kerf-installation.py:104-116 | the changes follow the plan from its start, all of it if and only if no step refuses; for a good plan none does, and at each step the ancestors are closed |
| `Harden.CodeTree.Apply` | scripts/harden-kerf-installation.py:99-120 | a normal result has unchanged contents and no entry with a group or other write bit; on a quiescent tree it never refuses, every change found its ancestors protected, and afterwards exactly those two bits are gone, of every entry that is not a link |
| `Trust.Visit` | scripts/harden-kerf-installation.py:30-46 | on success every path added is fine with all its hops in the set, and nothing was added that a trusted set around the start lacks; on failure every such set has more than 128 paths |
| `Trust.Check` | scripts/harden-kerf-installation.py:30-46 | one component is fine if and only if it exists with a trusted owner and is a link, or closed, or inside the tree, or sticky, root's and not the last; a link's hop is its target from its own directory |
| `Trust.TargetTrusted` | scripts/harden-kerf-installation.py:26-47 | accepts if and only if a set of at most 128 paths has the target, has only fine paths and is closed under every hop and resolution |
| `Trust.ChainFine` | scripts/harden-kerf-installation.py:26-47 | every path met by following any number of hops from a member is fine |
| `Trust.TrustKept` | scripts/harden-kerf-installation.py:99-120 | taking group and other write access away anywhere keeps every trusted set trusted |
| `Trust.ReliableKept` | scripts/harden-kerf-installation.py:99-120 | and so every link target that the first inspection accepted |
| `Endpoint.DescriptorRoundTrip` | scripts/runtime_network_doctor_checkpoint.py:12-48 | the framed bytes decode to the six strings, the MTU, the domain and the three lists |
| `Endpoint.PutString` | scripts/runtime_network_doctor_checkpoint.py:22-31 | a string is fed with its length if and only if it and the running total are within bounds |
| `Endpoint.PutLists` | scripts/runtime_network_doctor_checkpoint.py:40-48 | the lists are fed with their counts if and only if counts, strings and the total are within bounds; absent, null and empty are one |
| `Endpoint.ProjectEndpoint` | scripts/runtime_network_doctor_checkpoint.py:12-48 | accepts if and only if every bound holds, and then hashes the descriptor of the endpoint's meaning |
| `Endpoint.SameMeaning` | scripts/runtime_network_doctor_checkpoint.py:12-48 | the meaning of two endpoints is the same if and only if their parts are, compared by kind of value |
| `Endpoint.DescriptorsEqualIff` | scripts/runtime_network_doctor_checkpoint.py:12-48 | two accepted endpoints hash the same bytes if and only if they have the same six strings, MTU, domain and three lists, an absent domain being an empty one and an absent or null list an empty one |
| `Storage.VisitsInodes` | scripts/build-runtime-storage.py:39-61 | the walk meets exactly the inodes of the tree, with the root or without |
| `Storage.AllocatedBytes` | scripts/build-runtime-storage.py:39-50 | the loop returns 512 times the blocks summed over the distinct inodes |
| `Storage.ImportedInodeCount` | scripts/build-runtime-storage.py:53-61 | the loop returns the number of distinct inodes below the root |

## Left out

- gzip, the manifest's JSON, SHA-256, `mke2fs`, `debugfs`, `e2fsck` and `cp`: steps or function parameters whose result is given.
- System calls below the level of names and inodes: descriptors, `fsync` durability, `/proc` links, extended attributes beyond accept or refuse, ownership and mode checks of directories (`safe_directory`, `secure_input`).
- Faults other than a primitive failing before its effect, except in `activate`, where a failure after the effect is modelled too.
- `content_digest` hashes content rows; the model compares the rows themselves.
- manage-runtime-binaries.py: its `activate`, `uninstall` and `remove_release` are the deployment's steps without removals and without verification of the selected release; not repeated.
- The prefix-length bounds and regular expressions of environment values enter as predicates on the value.
- `qualify` and the other checkpoint comparisons, systemd, Docker, cloud and process orchestration: field checks and I/O.
- Lifecycle.UpdateStorageSize: the pattern runs over decoded text, not over its UTF-8 bytes; file modes are not modelled.
- Lifecycle.InstallFiles: the staging directory's contents appear in one step, by its rename.
- Binds.Materialize: where destinations lie inside one another success is given its consequences only; what makes a single bind succeed is exact in `Binds.Admit` and `Binds.PlaceOne`.
- Estimate.EstimateCoversIff: the stream is measured before compression.
- Admission.ScanTree: the names of hard-link groups enter as a partial function, none where a path is not UTF-8.
- Publication.World.RemoveIfIdentity: the directory variant's test of the kind is not modelled, because an inode does not change its kind.
- Builds.BuildStorage: free inodes are those of a build that is alone on its file system, and running out of them is not a failure of its own; bytes are not counted.
- Identifier.VerifyGeneration: the refusals of writable files, foreign owners and unsafe directories are not modelled.
- Activation.Store.PreflightLinks: the refusals of unsafe directories are not modelled.
- Activation.Store.Rollback: a second failure, inside the rollback, is not modelled.
- Harden.Inspect: a file that changes while it is hashed is not modelled.
