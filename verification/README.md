# Models of the OPENSTEP boot and mastering tools

This project models the parts of the repository that compute byte layouts, walk
on-disk structures or run a job protocol, and proves what they promise. Run
`dafny verify dfyconfig.toml` in this directory to check all of it.

| modules | what they model |
|---|---|
| `BootConfig`, `BootTables` | the in-place edits of the BootE configuration area, and the whole configuration as a list of tables |
| `BootLink`, `BootSarld`, `BootPublish` | the driver linker's bump allocator, the loading of the linker itself, and the publication of the KERNBOOTSTRUCT |
| `Farm`, `FarmRuns`, `FarmController` | the build farm: its steps, its runs with restarts, and the controller object that takes them |
| `NextLabel`, `LabelTemplate`, `HybridDisc` | NeXT `dlV3` labels: two readers, the writer, and placing a label on an ISO disc |
| `Ufs1Scan`, `Ufs1Layout`, `Ufs1Reader`, `Ufs1Directory`, `Ufs1Extract`, `Ufs1Reachable` | the native UFS1 reader, from finding the volume to recursive extraction |
| `TreeInventory`, `TreeCopy` | transactional tree insertion and replacement in a UFS image |
| `OctalFields`, `BigTar`, `BigTarWriter` | the bigtar reader and the writer its tests use |
| `PciConfig` | masked PCI configuration access |
| `Bytes`, `ByteSearch`, `SlashPaths` | byte fields, first-match search and NUL lists, slash-separated paths |

## How the code is modelled

- Memory is an `array<byte>` that the methods overwrite, with the loops of the
  source. Each method is proved equal to a function of the old contents, and
  the lemmas say what that function means. Sums that wrap at 32 bits in the
  source wrap here.
- File reads of the boot loader and calls into `sarld` are arbitrary functions
  of the driver's position, the attempt, the path and the room offered. They are
  assumed honest: a read stores no more than was asked for, even when asked for
  nothing, and no less than it reports; a failed read of a `_reloc` file counts
  as 0; the linker never reports more room than it was offered
  (`BootTables.HonestDisk`, `BootLink.HonestLinker`).
- The loader's compile-time choices and its two built-in PS/2 tables are fields
  of `BootTables.Build`. Mach-O load commands are given already decoded, in the
  order in which the loop meets them, and sarld's file as already read to its staging
  area in a flat 32-bit memory; the other buffers are arrays of their own.
- The farm's clock is an argument of each step. A job entry is its position in
  the job list, since ids can repeat. A restart loads what was last saved.
- Python exceptions are `None` or an explicit outcome. `math.ceil` is the integer
  ceiling, which is what it stands for. Names are byte strings.
- The helper that edits UFS images is modelled by the usual conditions: a new
  node needs a free path in an existing directory, `rmdir` an empty directory,
  and a command that fails changes nothing. Listing a directory gives its names
  once each in any order.

## What turned out not to hold

- Writing the Boot Drivers list twice is not always the same as writing it once:
  a quote in the list ends the value early, so the second write leaves the rest
  of the first behind (`BootConfig.DriversIdempotent` has the exact condition,
  `BootConfig.QuotedNames` a list that shows it).
- The configuration limit of 0xd000 does not keep the closing NULs below the
  kernel's allocation floor at 0x20000; 0xcb02 would
  (`BootPublish.ConfigBelowFloor`, `BootPublish.ConfigCanPassFloor`).
- The bounds on sarld's segments and commands wrap. A segment's file bytes lie in
  the file exactly when their end does not wrap, and so with its commands
  (`BootSarld.SegmentInFile`, `BootSarld.CommandsInFile`; accepted ones that do
  wrap are in `BootSarld.WrappedSegmentAccepted` and `BootSarld.WrappedCommandAccepted`).
- `complete` and `cancelled` are not final: a late result for the same id
  overwrites them (`FarmRuns.CompleteStays`, `FarmRuns.CancelledStays`, and one
  concrete run each).
- guest/farm/README.md:8 says that workers send a heartbeat every five seconds. The code
  (guest/farm/RSFarmWorker.m:50-58) sends one between jobs only. So a worker keeps
  the job it builds exactly as long as no tick of the reaper comes more than 45
  seconds after the heartbeat that preceded it, provided nobody cancels or reports
  on the job's id, or speaks in the worker's name, meanwhile
  (`FarmRuns.BuildKeepsJob`, `FarmRuns.LongBuildLosesJob`).
- A result is recorded for the first entry with its id. When the same build has
  been submitted twice, the second entry is left running after it was built
  (`FarmRuns.WorkerTurn`, `FarmRuns.SecondBuildStaysRunning`).
- A bigtar scan does not always end, since sizes are parsed with signs and a
  negative one leads the reader back. It ends exactly when it never comes back to
  an offset, which shows within as many turns as the archive has blocks and one
  more (`BigTar.ScanEnds`). A size of -1000 (octal) repeats its header for ever; -2000
  can end in an error or normally, depending on what it leads back to
  (`BigTarWriter.NegativeSizeLoops`, `BigTarWriter.NegativeSizeFails`,
  `BigTarWriter.NegativeSizeFinishes`).
- A bigtar file whose name has nothing but blanks after its last slash is taken for a
  directory. An archive comes back as it was written exactly when it holds no such
  file (`BigTarWriter.DirectoryName`, `BigTarWriter.ArchiveRoundTrip`; "a/ " in
  `BigTarWriter.BlankNameMisread`).
- `replace_tree` and `insert_tree` turn symbolic links into regular files, so the
  copy is exact if and only if the tree has directories and regular files alone
  (`TreeCopy.GraftIsExact`, `TreeCopy.SymlinkBecomesFile`).
- A volume chosen by the host tool opens only if 0x600 bytes of superblock are
  there, while the checks that choose it look at fewer
  (`Ufs1Scan.OpensExactly`, `Ufs1Scan.ShortImageFails`).

## Model

| member | source | states |
|---|---|---|
| BootConfig.SetOpenStepBootDrivers | tools/chameleon/overlay/i386/libsaio/openstep_boot.c:333-378 | the buffer becomes the old one with the first Boot Drivers value replaced, or is untouched when there is no list, no key, no closing quote or no room; the new length stays below the limit and no byte past both lengths changes |
| BootConfig.ShiftTail | tools/chameleon/overlay/i386/libsaio/openstep_boot.c:365-372 | moving a tail over itself by any positive or negative distance, one byte at a time, loses nothing, and no byte outside the move changes |
| BootConfig.SpliceInPlace | tools/chameleon/overlay/i386/libsaio/openstep_boot.c:359-374 | shift and copy together are one splice, for longer, shorter and equal texts |
| BootConfig.DriversSetGet | tools/chameleon/overlay/i386/libsaio/openstep_boot.c:333-378 | a reader of the table gets back exactly the names written if and only if they hold no quote |
| BootConfig.DriversGetSet | tools/chameleon/overlay/i386/libsaio/openstep_boot.c:333-378 | writing back the current value changes nothing |
| BootConfig.DriversSetSet | tools/chameleon/overlay/i386/libsaio/openstep_boot.c:333-378 | after a quote-free write, a second write has the same effect, and fits, exactly as on the original |
| BootConfig.DriversIdempotent | tools/chameleon/overlay/i386/libsaio/openstep_boot.c:333-378 | a second identical write changes nothing if and only if the names do not fit, or hold no quote, or would not fit again behind their own first quote |
| BootConfig.QuotedNames | tools/chameleon/overlay/i386/libsaio/openstep_boot.c:333-378 | writing A"B into an empty value: A is read back, and a second write gives another result |
| BootConfig.ForceOpenStepTextBoot | tools/chameleon/overlay/i386/libsaio/openstep_boot.c:464-477 | the three-byte store is a replacement of the first match, and nothing else changes |
| BootConfig.ForceOpenStepSafeEIDE | tools/chameleon/overlay/i386/libsaio/openstep_boot.c:479-492 | the single pass that overwrites while it scans equals left-to-right replacement of every match in the original |
| BootConfig.NoSectorsKeyRemains | tools/chameleon/overlay/i386/libsaio/openstep_boot.c:479-492 | no match is left afterwards: no replaced value completes or overlaps a new one |
| BootConfig.ForceOpenStepPrimaryEIDE | tools/chameleon/overlay/i386/libsaio/openstep_boot.c:494-512 | the overlapping move and copy replace the first match by the shorter value and give the new length |
| BootConfig.ForceOpenStepATAPISlave | tools/chameleon/overlay/i386/libsaio/openstep_boot.c:514-536 | inserting between the quotes replaces the first empty key by the filled one unless the limit would be reached, and the length stays below it |
| ByteSearch.SplitJoin | tools/chameleon/overlay/i386/libsaio/openstep_boot.c:258-328 | splitting NUL-separated tables gives back the tables that were joined |
| ByteSearch.ReplaceFirstJoin | tools/chameleon/overlay/i386/libsaio/openstep_boot.c:464-536 | a first-match replacement in the flat configuration is one in the first table that has a match |
| ByteSearch.ReplaceFirstTableAt | tools/chameleon/overlay/i386/libsaio/openstep_boot.c:464-536 | table by table, exactly the first table with a match is rewritten and every other one is kept |
| ByteSearch.ReplaceAllJoin | tools/chameleon/overlay/i386/libsaio/openstep_boot.c:479-492 | replacing every match in the flat configuration is doing so in every table: no match spans a NUL |
| BootTables.NextDriverName | tools/chameleon/overlay/i386/libsaio/openstep_boot.c:226-238 | the character loop finds the next blank-delimited word, and rejects it when it is over 63 characters or holds one outside the name alphabet |
| BootTables.NamesRoundTrip | tools/chameleon/overlay/i386/libsaio/openstep_boot.c:218-238 | any list of valid names, written with spaces, is scanned back as that list |
| BootTables.ReadTable | tools/chameleon/overlay/i386/libsaio/openstep_boot.c:243-322 | the preferred, own, Default and built-in attempts land at one place, never touch the tables before it, and leave there what the last attempt made gave |
| BootTables.AppendOne | tools/chameleon/overlay/i386/libsaio/openstep_boot.c:254-328 | one turn of the loop adds one table after one NUL, or takes the NUL back |
| BootTables.AppendOpenStepDriverTables | tools/chameleon/overlay/i386/libsaio/openstep_boot.c:211-331 | the area holds the old configuration and the found tables, each after one NUL, and stays two bytes below the limit |
| BootTables.FoundExactly | tools/chameleon/overlay/i386/libsaio/openstep_boot.c:254-328 | a driver has a table in the list if and only if room was left when it was reached and its table could be loaded into that room, and then it is that table |
| BootTables.FoundInOrder | tools/chameleon/overlay/i386/libsaio/openstep_boot.c:218-329 | the tables are in the order of the driver list, at most one for each driver |
| BootTables.ApplyLateEdits | tools/chameleon/overlay/i386/libsaio/openstep_boot.c:661-672 | the edits the build selects are made in this order, and the length stays below the limit |
| BootTables.BuildConfiguration | tools/chameleon/overlay/i386/libsaio/openstep_boot.c:650-672 | whatever the disk answers, the finished area is the late edits of the joined tables and is shorter than the limit |
| BootTables.LateEditsAreTableEdits | tools/chameleon/overlay/i386/libsaio/openstep_boot.c:464-536 | the late edits each rewrite inside tables: their number and order stay |
| BootTables.ConfigurationMeaning | tools/chameleon/overlay/i386/libsaio/openstep_boot.c:650-672 | splitting the finished configuration at NUL gives exactly the edited system table and then one edited table for each driver whose table was found |
| BootLink.OpenStepKernelExtent | tools/chameleon/overlay/i386/libsaio/openstep_boot.c:128-153 | the page-rounded distance to the highest segment end that counts, and the fallback exactly when the header is wrong, a command is too short or no segment counts |
| BootLink.RoundPageIsLeast | tools/chameleon/overlay/i386/libsaio/openstep_boot.c:116-119 | short of wrapping, the least page boundary at or above the value |
| BootLink.Put32 | tools/chameleon/overlay/i386/libsaio/openstep_boot.c:111-114 | the word reads back and no other byte changes |
| BootLink.RecordsAreContiguous | tools/chameleon/overlay/i386/libsaio/openstep_boot.c:395-461 | for every answer of an honest linker, driver records are non-empty, each starts where the one before ends, and all end at or below 0x500000 |
| BootLink.ContiguousIsDisjoint | tools/chameleon/overlay/i386/libsaio/openstep_boot.c:395-461 | no two linked drivers share a byte, and none starts before the first page after the kernel |
| BootLink.EndIsLast | tools/chameleon/overlay/i386/libsaio/openstep_boot.c:456-461 | the allocation pointer is the end of the last record and lies below the ceiling |
| BootLink.RecordIsDriver | tools/chameleon/overlay/i386/libsaio/openstep_boot.c:419-454 | record i belongs to driver i of the list, at its own address and with the size the linker gave for it |
| BootLink.RecordsStop | tools/chameleon/overlay/i386/libsaio/openstep_boot.c:395-450 | the records are the longest prefix that links: linking ends at the list's end, after 64 drivers, or at the first driver that cannot be linked where allocation stands |
| BootLink.TryLink | tools/chameleon/overlay/i386/libsaio/openstep_boot.c:428-450 | a driver links exactly when its file was read and fits, room is left and the linker succeeds, and then it ends at or below the ceiling |
| BootLink.AddRecord | tools/chameleon/overlay/i386/libsaio/openstep_boot.c:451-457 | the new record is stored behind the others, which still read back, with the count and kernel size |
| BootLink.LinkInOrder | tools/chameleon/overlay/i386/libsaio/openstep_boot.c:395-461 | the loop stores exactly the records of the name list, and the count, kernel size and returned pointer agree with them |
| BootLink.LinkOpenStepDrivers | tools/chameleon/overlay/i386/libsaio/openstep_boot.c:380-462 | sarld is loaded only if there are names and a base file; if it loads, the records start at the page after the kernel, the stored and returned sizes are the distance to the last end and its entry is stored; otherwise nothing is linked and the size stays |
| BootSarld.LoadSegment | tools/chameleon/overlay/i386/libsaio/openstep_boot.c:190-192 | after the clear and the copy every byte of the segment is its file byte or zero, and no other byte changed |
| BootSarld.LoadOpenStepSarld | tools/chameleon/overlay/i386/libsaio/openstep_boot.c:155-209 | memory is what the commands before the first rejected one make it, and an entry is returned exactly when header and all commands pass and the last thread command's entry lies in the window |
| BootSarld.EntryMeaning | tools/chameleon/overlay/i386/libsaio/openstep_boot.c:174-208 | an entry is returned only if every command is accepted, and is the one of the last thread command, between 0x20000 and 0x60000 |
| BootSarld.SegmentInWindow | tools/chameleon/overlay/i386/libsaio/openstep_boot.c:181-189 | despite 32-bit sums, an accepted segment lies in 0x20000 to 0x60000 |
| BootSarld.SegmentInFile | tools/chameleon/overlay/i386/libsaio/openstep_boot.c:185-186 | an accepted segment's bytes lie in the file if and only if their end does not wrap |
| BootSarld.WrappedSegmentAccepted | tools/chameleon/overlay/i386/libsaio/openstep_boot.c:181-189 | a segment whose range wraps is accepted in a file of 100 bytes, and its bytes come from before the staged file |
| BootSarld.OutsideUntouched | tools/chameleon/overlay/i386/libsaio/openstep_boot.c:175-200 | whether or not the load succeeds, no byte outside the window changes: not the staged file, nor the boot structure |
| BootSarld.LastSegmentWins | tools/chameleon/overlay/i386/libsaio/openstep_boot.c:180-192 | a loaded byte is zero or the byte at the wrapped source address of the last segment over it, as that was before the load, however many segments were loaded; for a range that does not wrap that is the staged file's byte at the right offset |
| BootSarld.SourceOutside | tools/chameleon/overlay/i386/libsaio/openstep_boot.c:185-192 | the wrapped source addresses of an accepted segment lie above the window, so no loaded segment is copied from another |
| BootSarld.CommandsInFile | tools/chameleon/overlay/i386/libsaio/openstep_boot.c:174-200 | the commands carried out all lie in the file behind the header if and only if none of their ends wraps |
| BootSarld.WrappedCommandAccepted | tools/chameleon/overlay/i386/libsaio/openstep_boot.c:174-179 | a command whose end wraps is accepted, and the next one is read from low memory |
| BootPublish.PublishFront | tools/chameleon/overlay/i386/libsaio/openstep_boot.c:680-689 | command line, boot file and the machine words all read back after all were written |
| BootPublish.PublishWords | tools/chameleon/overlay/i386/libsaio/openstep_boot.c:698-708 | the eight words all read back, and the front of the structure is as before |
| BootPublish.PublishTables | tools/chameleon/overlay/i386/libsaio/openstep_boot.c:709-718 | the published driver array is the staged one, the configuration and two NULs follow, and the words before are as before |
| BootPublish.PublishConfig | tools/chameleon/overlay/i386/libsaio/openstep_boot.c:716-718 | the configuration and its two closing NULs are stored, and nothing before them changes |
| BootPublish.Publish | tools/chameleon/overlay/i386/libsaio/openstep_boot.c:678-718 | in the finished structure every field reads back what was written to it: no later write clobbers an earlier one |
| BootPublish.PrepareOpenStepBootStruct | tools/chameleon/overlay/i386/libsaio/openstep_boot.c:619-725 | for every disk, linker, kernel image, sarld file and driver list, the live structure ends with every field: the size that the kernel's segments and the linked drivers give, the entry that the sarld file loads with or 0, the records of the linked drivers and the whole configuration |
| BootPublish.ConfigBelowFloor | tools/chameleon/overlay/i386/libsaio/openstep_boot.c:691-718 | the closing NULs lie below 0x20000 if and only if the configuration has at most 0xcb02 bytes |
| BootPublish.ConfigCanPassFloor | tools/chameleon/overlay/i386/libsaio/openstep_boot.c:650-656 | a system table of 0xcb03 bytes is accepted and published whole |
| Farm.ReapMeaning | guest/farm/RSFarmController.m:152-173 | afterwards no running job belongs to a registered worker over the limit, and an entry changes exactly when such a worker was running it |
| Farm.LoadRestores | guest/farm/RSFarmController.m:37-40 | loading a saved worker table restores it in whatever order its records are enumerated |
| FarmRuns.StepKeepsInv | guest/farm/RSFarmController.m:26-173 | submit, cancel, register, heartbeat, next, finish, reap and restart each keep the farm's invariant |
| FarmRuns.RunKeepsInv | guest/farm/RSFarmController.m:26-173 | so does every run, and the counts of all entries add up to the hand-outs of the run |
| FarmRuns.AtMostTwice | guest/farm/RSFarmController.m:114-173 | in every run from an empty farm each entry is handed out at most twice and at most once beyond its retries, the total is at most twice the entries, and every running job names a registered worker |
| FarmRuns.RestartLosesOnlyFresh | guest/farm/RSFarmController.m:26-50 | at any point of any run a restart drops only never-dispatched entries at the end of the list, and no worker |
| FarmRuns.CompleteStays | guest/farm/RSFarmController.m:131-151 | one step leaves a complete entry complete if and only if it is not a result for that entry that asks for a first retry or reports failure |
| FarmRuns.CancelledStays | guest/farm/RSFarmController.m:131-151 | one step leaves a cancelled entry cancelled if and only if it is not a result for that entry |
| FarmRuns.CompleteIsNotFinal | guest/farm/RSFarmController.m:131-147 | a run in which a complete job becomes failed |
| FarmRuns.CancelledIsNotFinal | guest/farm/RSFarmController.m:131-147 | a run in which a cancelled job is queued again |
| FarmRuns.BuildKeepsJob | guest/farm/RSFarmController.m:107-173 | from a worker's heartbeat over taking a job and whatever happens while it builds, restarts included, except a message in the worker's name or a cancellation or result for the job's id, the entry is as it was handed out if and only if no reaper tick came more than 45 seconds after the heartbeat |
| FarmRuns.LostForGood | guest/farm/RSFarmController.m:114-173 | an entry lost to the reaper never becomes again what was handed out, in any run in which nobody speaks for its worker or about its id |
| FarmRuns.LongBuildLosesJob | guest/farm/RSFarmWorker.m:50-58 | a run in which a tick 46 seconds after the heartbeat queues a job that is being built |
| FarmRuns.FinishHits | guest/farm/RSFarmController.m:131-151 | a result by an entry's id retires the first entry with that id and no other, and that is the entry itself if and only if no earlier one has the id |
| FarmRuns.WorkerTurn | guest/farm/RSFarmWorker.m:50-58 | an uninterrupted turn of a worker starts the first job it can build and retires the first entry with its id, which is that entry if and only if no earlier one has the id; no other entry changes |
| FarmRuns.SecondBuildStaysRunning | guest/farm/RSFarmController.m:71-147 | a run of a build submitted twice in which the second entry is built and left running |
| FarmController.RSController.constructor | guest/farm/RSFarmController.m:26-43 | a new controller has the file's jobs and one record for each name, for any enumeration order; from a file that was saved it is the farm after a restart |
| FarmController.RSController.Save | guest/farm/RSFarmController.m:47-50 | the file becomes the state in memory |
| FarmController.RSController.SubmitBuild | guest/farm/RSFarmController.m:51-82 | takes the submit step: one queued entry for each architecture and their ids, or a rejection that can leave entries in memory and nothing in the file |
| FarmController.RSController.CancelJob | guest/farm/RSFarmController.m:85-96 | takes the cancel step on the first entry with the id that is not complete, and reports whether there is one |
| FarmController.RSController.RegisterWorker | guest/farm/RSFarmController.m:97-106 | takes the register step and reports whether name and architectures were acceptable |
| FarmController.RSController.Heartbeat | guest/farm/RSFarmController.m:107-113 | takes the heartbeat step, in memory only, and reports whether the worker is known |
| FarmController.RSController.NextJobForWorker | guest/farm/RSFarmController.m:114-130 | takes the next step and returns the first queued job of an architecture the online worker builds, as it now stands |
| FarmController.RSController.FinishJob | guest/farm/RSFarmController.m:131-151 | takes the finish step on the first entry with the id, and reports whether there is one |
| FarmController.RSController.ReapWorkers | guest/farm/RSFarmController.m:152-173 | the nested loops take the reap step, in whatever order the workers are enumerated |
| FarmController.RSController.ReleaseJobs | guest/farm/RSFarmController.m:161-169 | the inner loop requeues or fails every job of one worker and no other |
| NextLabel.DlV3Checksum | tools/chameleon/overlay/i386/libsaio/nextlabel.c:29-43 | the per-step correction computes the end-around sum of the label with its block number zeroed |
| NextLabel.ChecksumV3 | reopenstep_tool/nextlabel.py:34-41 | summing first and folding last computes the same end-around sum, and ends |
| NextLabel.EndAroundStep | tools/chameleon/overlay/i386/libsaio/nextlabel.c:35-40 | one addition with one correction is exact for every word |
| NextLabel.EndAroundFold | reopenstep_tool/nextlabel.py:39-40 | one fold keeps the end-around value and makes a total of over 16 bits smaller |
| NextLabel.NeXTLabelUFSOffset | tools/chameleon/overlay/i386/libsaio/nextlabel.c:45-81 | accepts exactly the labels with the right magic, sector, checksum and usable root, and gives the root's byte offset in 512-byte sectors |
| NextLabel.SectorBound | tools/chameleon/overlay/i386/libsaio/nextlabel.c:76-78 | the overflow test can never fire, and no precision is lost by dividing the sector size first |
| NextLabel.ParsedFields | reopenstep_tool/nextlabel.py:49-73 | parsing a complete label reports the fields and sums the boot loader reads |
| NextLabel.RootRecord | reopenstep_tool/nextlabel.py:91-108 | the root partition record is the one the boot loader uses, and their type tests agree |
| NextLabel.ReadersAgree | reopenstep_tool/nextlabel.py:76-97 | the boot loader accepts the primary label if and only if the host tool's report of it meets the loader's conditions, and then the tool marks the checksum valid and both give one root offset |
| LabelTemplate.UpdateTemplate | reopenstep_tool/nextlabel.py:126-147 | succeeds exactly on fitting inputs, and the result has the requested fields, a valid checksum, partition b otherwise as partition a, and the template's bytes everywhere else |
| LabelTemplate.WriteFront | reopenstep_tool/nextlabel.py:134-138 | label block, porch, base and size read back, and no byte outside those fields changes |
| LabelTemplate.WritePartitionB | reopenstep_tool/nextlabel.py:139-145 | partition b is a copy of a with its own extent |
| LabelTemplate.Seal | reopenstep_tool/nextlabel.py:146-147 | the stored checksum is that of the label it is stored in |
| LabelTemplate.EditParses | reopenstep_tool/nextlabel.py:126-147 | parsing an updated label gives back the requested values, partition b's kind and block sizes from a, and a checksum that is valid both ways |
| LabelTemplate.EditAccepted | tools/chameleon/overlay/i386/libsaio/nextlabel.c:56-80 | the boot loader accepts an updated label at sector 0 if and only if its root partition is usable |
| LabelTemplate.EditAcceptedForRootA | tools/chameleon/overlay/i386/libsaio/nextlabel.c:62-75 | for root a that is a condition on the requested base and size and on the template's type and sector size alone |
| LabelTemplate.EditAcceptedExactly | tools/chameleon/overlay/i386/libsaio/nextlabel.c:56-80 | for every root letter, acceptance at sector 0 is a condition on the edit and the template alone |
| HybridDisc.DirectoryRecords | reopenstep_tool/hybrid.py:51-67 | the loop lists the records up to the first short one, skipping to the next sector at a zero length |
| HybridDisc.FollowPath | reopenstep_tool/hybrid.py:87-106 | the loop follows the path component by component, with every component but the last a directory |
| HybridDisc.LookupsAgree | reopenstep_tool/hybrid.py:70-106 | the two lookups agree on every file of the root directory |
| HybridDisc.LookupUnchanged | reopenstep_tool/hybrid.py:87-106 | a file found before the label was written is found at the same place afterwards |
| HybridDisc.Descriptors | reopenstep_tool/iso.py:23-36 | the sector loop reports the descriptors up to the terminator, the first short sector or sector 63 |
| HybridDisc.InspectElTorito | reopenstep_tool/iso.py:14-47 | the report is that of the descriptors and of the boot catalog they name |
| HybridDisc.ReportMeaning | reopenstep_tool/iso.py:22-36 | a primary descriptor and a boot record are reported if and only if one stands before the terminator, the first short sector and sector 64, and the catalog address is that of the last such boot record |
| HybridDisc.ReportUnchanged | reopenstep_tool/iso.py:14-47 | rewriting the first 7680 bytes of a disc leaves the report as it was when the catalog lies past sector 3 |
| HybridDisc.PlacementResolves | reopenstep_tool/hybrid.py:192-210 | for a template with root a at base 0 and 2048-byte sectors, partition a starts at exactly the payload file and b at the second file |
| HybridDisc.PlacementBoots | tools/chameleon/overlay/i386/libsaio/nextlabel.c:56-80 | the boot loader accepts such a label if and only if the template's type is the loader's and the payload has neither 0 nor 0xffffff sectors, and finds the root at the payload file |
| HybridDisc.PlaceLabel | reopenstep_tool/hybrid.py:192-210 | succeeds if and only if the files are found and their places fit the label; then the first 7680 bytes are the template pointed at the files as they were found; on failure the image is untouched, and nothing past the label ever changes |
| Ufs1Scan.ScanSuperblocks | reopenstep_tool/rhapsody_re.py:78-91 | the list holds the candidate of every occurrence of either magic number, once each, strictly by position |
| Ufs1Scan.Sorted | reopenstep_tool/rhapsody_re.py:91-91 | sorting keeps every candidate with its multiplicity and puts them in order |
| Ufs1Scan.DefaultRootOffset | reopenstep_tool/rdrufs.py:111-139 | the labelled offset if a superblock is there, else the lowest plausible candidate of the label's fragment size, else the lowest plausible one, else the label on trust |
| Ufs1Scan.ReadableSuperblock | reopenstep_tool/rdrufs.py:188-220 | a superblock is read exactly where 0x600 bytes are there and hold the magic number in one of the byte orders, which is the one reported |
| Ufs1Scan.OpensExactly | reopenstep_tool/rdrufs.py:111-199 | the volume opens at the default offset if and only if the offset is not the label's on trust and the whole superblock is there |
| Ufs1Scan.ShortImageFails | reopenstep_tool/rdrufs.py:111-199 | an image that ends right behind a plausible superblock's magic number: every right choice falls on it, and it does not open |
| Ufs1Scan.ScannedGeometry | reopenstep_tool/rhapsody_re.py:48-75 | a volume found by the scan opens with the candidate's byte order and sizes, and fragments fill blocks exactly |
| Ufs1Scan.ToolOpensLoaderRoot | reopenstep_tool/rdrufs.py:111-119 | where the boot loader finds the root file system, and a superblock is there, the host tool looks |
| Ufs1Layout.MaskIsMod | reopenstep_tool/rdrufs.py:254-256 | for a mask of -2^k the rotation term is the group number modulo 2^k |
| Ufs1Layout.PlausibleGeometry | reopenstep_tool/rhapsody_re.py:59-65 | plausible sizes make blocks exactly full of fragments |
| Ufs1Layout.InodeAddress | reopenstep_tool/rdrufs.py:222-235 | the block-and-remainder arithmetic is the group's table base plus 128 times the index in the group |
| Ufs1Layout.InodesDisjoint | reopenstep_tool/rdrufs.py:222-256 | when every rotated table fits in its group, distinct inode numbers have disjoint bytes |
| Ufs1Reader.GatherAddresses | reopenstep_tool/rdrufs.py:268-279 | direct then single-indirect addresses, exactly as many as the size needs, or failure |
| Ufs1Reader.GatherBlocks | reopenstep_tool/rdrufs.py:280-285 | one block for each address in order, or failure when any cannot be read |
| Ufs1Reader.ReadFile | reopenstep_tool/rdrufs.py:258-285 | the loops give the file's data, the inline target of a short symlink, or failure |
| Ufs1Reader.ReadableExactly | reopenstep_tool/rdrufs.py:258-285 | reading succeeds if and only if every needed block is addressable and every one that is not a hole lies in the image |
| Ufs1Reader.FileByte | reopenstep_tool/rdrufs.py:258-285 | byte k of the data is byte k mod bsize of logical block k / bsize |
| Ufs1Reader.FileLength | reopenstep_tool/rdrufs.py:267-285 | the data has exactly the inode's size, for empty files too |
| Ufs1Reader.InlineLength | reopenstep_tool/rdrufs.py:261-266 | a symlink without blocks has as much of its size as the 60 bytes of block pointers hold |
| Ufs1Reader.BlockByte | reopenstep_tool/rdrufs.py:280-284 | a hole reads as zeros and any other block is the image at its fragment's address |
| Ufs1Directory.ParseDirectory | reopenstep_tool/rdrufs.py:364-381 | the scan yields the used entries of the accepted records, and ends |
| Ufs1Directory.VisitsTile | reopenstep_tool/rdrufs.py:364-381 | accepted records lie end to end from the start of the data, and no name leaves its record |
| Ufs1Directory.TilesInOrder | reopenstep_tool/rdrufs.py:364-381 | so offsets strictly increase and no record reaches into a later one |
| Ufs1Directory.DirectoryRoundTrip | reopenstep_tool/rdrufs.py:364-381 | in either byte order, encoded records followed by data the scan does not accept parse to exactly the used entries, in order |
| Ufs1Directory.ParseEncodedDirectory | reopenstep_tool/rdrufs.py:364-381 | the same for a directory that is nothing but records |
| SlashPaths.ComponentsJoin | reopenstep_tool/rdrufs.py:297-297 | splitting a path joined with a slash gives the components of both parts |
| SlashPaths.ComponentsChild | reopenstep_tool/rdrufs.py:335-335 | a joined child path, trailing slashes stripped, has the parent's components and the name |
| Ufs1Extract.ResolvePath | reopenstep_tool/rdrufs.py:293-305 | the loop descends one component at a time from the root inode |
| Ufs1Extract.ResolveChild | reopenstep_tool/rdrufs.py:293-336 | resolving a joined path from the root is resolving the parent and descending once |
| Ufs1Extract.DescendToChild | reopenstep_tool/rdrufs.py:329-336 | with unique names that reaches the inode the directory entry names |
| Ufs1Extract.ExtractChildren | reopenstep_tool/rdrufs.py:326-337 | the children of a directory are reported in its order, each with its whole subtree |
| Ufs1Extract.ExtractOne | reopenstep_tool/rdrufs.py:320-353 | on an acyclic volume with unique names extraction ends and reports the preorder walk along directory entries, though it resolves every path again |
| Ufs1Reachable.WalkComplete | reopenstep_tool/rdrufs.py:320-353 | every reachable inode is listed under the path that reaches it, with its kind and data |
| Ufs1Reachable.WalkSound | reopenstep_tool/rdrufs.py:320-353 | everything listed is reachable along its path |
| Ufs1Reachable.WalkOnce | reopenstep_tool/rdrufs.py:320-353 | no path is listed twice |
| Ufs1Reachable.WalkSucceeds | reopenstep_tool/rdrufs.py:320-353 | extraction succeeds if and only if every reachable directory lists, with names that are safe to join, and everything else reachable has data |
| TreeInventory.Visit | reopenstep_tool/ufs.py:164-170 | the recursion lists every path of the subtree once, its root first and ancestors before descendants |
| TreeInventory.Inventory | reopenstep_tool/ufs.py:160-173 | succeeds exactly for an existing root and is then such a preorder |
| TreeCopy.WorkingImage.DeleteBelow | reopenstep_tool/ufs.py:302-304 | reverse preorder removal never fails, so only ever removes empty directories, and leaves exactly what is not below the root |
| TreeCopy.RemovalAllowed | reopenstep_tool/ufs.py:302-304 | when a node's turn comes, everything below it is already gone |
| TreeCopy.ParentEarlier | reopenstep_tool/ufs.py:307-313 | when a node is created, its parent is the root or has been created |
| TreeCopy.WorkingImage.CopyNode | reopenstep_tool/ufs.py:311-317 | creating and setting the mode give the copied node, or change nothing |
| TreeCopy.WorkingImage.CopyBelow | reopenstep_tool/ufs.py:306-317 | preorder creation never fails and never overwrites, and grafts exactly the source subtree |
| TreeCopy.CopyIsExact | reopenstep_tool/ufs.py:311-317 | a copied node is its original if and only if that is a regular file or a directory without data |
| TreeCopy.GraftIsExact | reopenstep_tool/ufs.py:306-317 | a copied subtree is its source if and only if there are directories and regular files alone below the root |
| TreeCopy.SymlinkBecomesFile | reopenstep_tool/ufs.py:311-317 | every copy of a tree with one symbolic link holds a regular file in its place |
| TreeCopy.VerificationPasses | reopenstep_tool/ufs.py:319-323 | listing the result always finds exactly the expected paths |
| TreeCopy.SizesAgree | reopenstep_tool/ufs.py:274-276 | listing the result always finds as many nodes as the source has |
| TreeCopy.ReplaceTree | reopenstep_tool/ufs.py:287-324 | succeeds if and only if both roots are directories, and then the subtree is the source's in paths, kinds, contents and permissions, nothing outside it changed, and it is the source's subtree itself if and only if that holds directories and regular files alone |
| TreeCopy.InsertTree | reopenstep_tool/ufs.py:250-277 | succeeds if and only if the source root is a directory and the new root can be made, and then the same holds below it |
| OctalFields.FieldRoundTrip | reopenstep_tool/bigtar.py:15-20 | zero-padded octal digits ended by a NUL read back as the number, for every width and number that fits |
| BigTar.ReadEntries | reopenstep_tool/bigtar.py:66-109 | for as many turns as its consumer asks for, the loop yields the entries of the scan and stands where it does |
| BigTar.StepAdvances | reopenstep_tool/bigtar.py:107-109 | a yielded entry leads no further if and only if it is a file with a size of -512 or less |
| BigTar.ScanEnds | reopenstep_tool/bigtar.py:66-109 | the scan ends, with or without an error, if and only if it never comes back to an offset, and if and only if it has ended after as many turns as the archive has blocks and one more |
| BigTar.LongRunRepeats | reopenstep_tool/bigtar.py:66-109 | a reader that yields more entries than the archive has blocks has come back to an offset |
| BigTar.RepeatGoesOn | reopenstep_tool/bigtar.py:66-109 | a reader that has come back to an offset yields for ever |
| BigTar.ForwardEnds | reopenstep_tool/bigtar.py:66-109 | a scan that meets no file of size -512 or less ends |
| BigTar.StuckForever | reopenstep_tool/bigtar.py:66-109 | a file size from -1023 to -512, wherever it is met, keeps the reader at that header for ever |
| BigTar.ScanTiles | reopenstep_tool/bigtar.py:51-109 | at every turn the headers and padded data lie end to end, and links and directories take no data whatever their size field says |
| BigTarWriter.SpelledPath | reopenstep_tool/bigtar.py:23-35 | a canonical path reads back as itself, with or without a leading dot and a trailing slash |
| BigTarWriter.DirectoryName | reopenstep_tool/bigtar.py:81-92 | a member is taken for a directory if and only if it was written with a trailing slash or has nothing but blanks after its last slash |
| BigTarWriter.ChecksumFits | tests/test_core.py:61-63 | six octal digits hold the byte sum of every header |
| BigTarWriter.HeaderReads | tests/test_core.py:45-64 | a written header reads back field by field, with the kind that its flag and name give |
| BigTarWriter.ArchiveRoundTrip | tests/test_core.py:67-75 | parsing a written archive gives every member back as it was written, in order, at the offsets it was written to, and ends normally, if and only if no member is a file with nothing but blanks after its last slash |
| BigTarWriter.ReadAsWritten | reopenstep_tool/bigtar.py:81-92 | the entry that is read is the one that was written if and only if the member is no such file |
| BigTarWriter.BlankNameMisread | reopenstep_tool/bigtar.py:81-92 | a file "a/ " is read as a directory, and its archive does not come back |
| BigTarWriter.NegativeField | reopenstep_tool/bigtar.py:15-20 | a field of -k000 is read as -512 times k |
| BigTarWriter.NegativeSizeLoops | reopenstep_tool/bigtar.py:66-109 | a first file with a size field of -1000 is yielded for ever |
| BigTarWriter.NegativeStep | reopenstep_tool/bigtar.py:107-109 | a file with a size field of -k000 leads k - 1 blocks before its own header |
| BigTarWriter.NegativeSizeFails | reopenstep_tool/bigtar.py:66-109 | a first file with -2000 ends the scan with a failing seek |
| BigTarWriter.NegativeSizeFinishes | reopenstep_tool/bigtar.py:66-109 | behind a file whose data is a block of zeros the same field ends the scan normally |
| PciConfig.PciLibrary.GetConfigData | glide/rhapsody/Glide2.framework/macosxglide.m:163-185 | succeeds exactly for a ready library, a known device and an address below 256, with the addressed bytes of the aligned word, and sets the error code accordingly |
| PciConfig.PciLibrary.SetConfigData | glide/rhapsody/Glide2.framework/macosxglide.m:187-223 | succeeds exactly on good accesses, changes one word of one device by a masked merge, and changes no device otherwise |
| PciConfig.PciLibrary.ReadConfigLong | glide/rhapsody/Voodoo2.lksproj/Voodoo2.m:108-122 | serves aligned addresses up to 252 of the devices there are, and nothing else |
| PciConfig.PciLibrary.WriteConfigLong | glide/rhapsody/Voodoo2.lksproj/Voodoo2.m:124-136 | stores one aligned word of one device, or changes nothing |
| PciConfig.MergeLanes | glide/rhapsody/Glide2.framework/macosxglide.m:202-214 | for all nine narrow accesses and the full word, a merged word holds the value's low bytes at the addressed lanes and its old bytes at the others |
| PciConfig.ExtractMerge | glide/rhapsody/Glide2.framework/macosxglide.m:178-214 | extracting what was merged gives the low bytes of the value |
| PciConfig.MergeKeepsOthers | glide/rhapsody/Glide2.framework/macosxglide.m:202-214 | every register of the word that shares no byte with the written one is kept |
| PciConfig.SetChangesAddressedBytes | glide/rhapsody/Glide2.framework/macosxglide.m:187-223 | seen as 256 bytes, a set changes exactly the addressed ones, in little-endian order |
| PciConfig.GetAfterSet | glide/rhapsody/Glide2.framework/macosxglide.m:163-223 | a get after a set returns the low bytes of the value |
| PciConfig.OtherRegisterUnchanged | glide/rhapsody/Glide2.framework/macosxglide.m:163-223 | a register that shares no byte with the one set reads as before |

## Left out

- `preserveOpenStepBaseFile` (in-memory relocation of the base file's link-edit segment), the inline-assembly stack switch, video modes and console messages.
- Decoding of Mach-O load commands from bytes; the headers that define their layout are not part of this model.
- BootLink.RecordsAreContiguous: assumes that the linker reports at most the room it was offered.
- Saving the farm's state is assumed to succeed (the source ignores the result of writing the file); property-list encoding is not modelled.
- Keys of a submitted build other than those the controller reads or writes, a worker's slots, missing results, and the distributed-object transport.
- Null pointer arguments of the C and Objective-C functions.
- Text fields of a parsed label, the list of label copies and `normalized_template`; each is a slice or a search.
- The label patching path for other templates (`patch_label`, `label_candidates`), staging and building of the ISO tree, and the final bootability demand of `wrap_ufs`.
- Ufs1Reader.ReadFile: superblocks with a block size, inodes per block or inodes per group that is not positive are outside the model; the reader divides by them.
- Ufs1Extract.ExtractOne: only the report is modelled, not the files, links, hashes and directories made on the host, nor its refusal of special files beyond failing to read them; on cyclic volumes the source does not end.
- Superblock fields that only the report shows, and the base offset that is added when the boot block is scanned.
- Names as text: UTF-8 decoding, replacement characters, and rejection of names that are not UTF-8.
- TreeCopy.ReplaceTree: hard links, ownership and times are not part of a node; the helper's textual listing is taken as already read.
- `replace_file`, `overlay_bigtar`, `extract_tree` of `ufs.py` and bigtar extraction: host files, or tool behaviour that is not in the repository.
- PciConfig.PciLibrary.GetConfigData: the server's own device failures, connecting, closing and mapping are not modelled; configuration space is plain memory.
- Command line, recipes, profiles, hashing, composition and virtual machine harnesses.
