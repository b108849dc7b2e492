# FocalDesk: verified models of its core logic

FocalDesk is a desktop environment written in Rust. This project models the parts of it whose correctness is not
seen from reading one function, in Dafny, and proves what they promise for every input, every run and every state:

- **File transfers** (`Transfer*.dfy`, `Paths.dfy`). Each source is staged at a private entry of the target directory,
  by a rename or by a copy, then committed by the policy (replace, skip, keep both), rolled back on failure, and
  logged for undo. The file system is a map from paths to nodes; a file node carries its device and inode as one
  identity. Every call of the class `TransferDisk.FileSystem` is atomic, may fail of its own accord, and is recorded;
  the class keeps the states it went through, one call apart, and a ledger of where each item from the start is now, so
  no method can reach a state in which one is lost. The cancel flag may be raised before any look at it. Undoing
  (`TransferUndo*.dfy`) is modelled with the ways round a rename that the system refuses between devices.
- **Archive extraction** (`Numerals`, `TarHeader`, `PaxRecords`, `ArchivePaths`, `ExtractionTree`, `TarStream`,
  `TarExtraction`, `TarRoundTrip`, `TarContents`, `TarSoundness`, `ZipExtraction`, `ArchiveExtraction`,
  `ArchiveOutcome`). A tar stream is bytes behind a reader that returns any number of them at a time; the zip library is
  a list of entries with declared sizes and any contents. Formats: "ustar Interchange Format" and "pax Interchange
  Format" of POSIX.1-2017 `pax`.
- **Calculator** (`Calculator*.dfy`). The number operations are parameters about which nothing is assumed, so the
  theorems are about the parser with its real floating-point numbers.
- **Greeter login** (`LoginScreen`, `GreeterProtocol`, `GreeterText`, `GreetdSocket`). The screen, the request thread
  and greetd are a transition system over key presses, deliveries, thread steps and thread death.
- **Terminal output** (`Terminal*.dfy`). An escape-sequence transducer and a line normaliser with truncation.
- **Shell quoting, painting, conversations, thumbnail cache** (`ShellQuote`, `Painting`, `Conversations`,
  `ThumbnailCache`).

Code that changes state step by step is modelled by methods over classes and arrays, each proved against a
specification function; the laws are then proved about those functions, and about whole runs.

## Where the code and its promises part

- **What cannot be undone.** A created or moved symbolic link that leads nowhere, since existence is asked through the
  link. A folder moved to another device that holds a symbolic link or a folder mode other than that of new folders:
  the way back copies, following links and making folders anew (`MovedLinkIsLost`). A folder, or a link unless the
  library keeps links, that was moved to another device and replaced something there. And a moved item that came from
  inside the item it replaced. `UndoStep` and `ExactUndo` prove that these are all.
- **Spoilt and not noticed.** What undoing a copied move has spoilt does not show at the end when the item was taken out
  of a copy in the target that is taken away afterwards (`HiddenByReplacement`); so the "only if" of `ExactUndo` is for
  logs in which no copied move came from inside the target directory.
- **Partial removal.** When the source of a move across devices is removed only in part, the log calls the copy created,
  or the replaced item replaced by a copy; undoing that loses what was removed (`UndoAfterFailedRemoval`,
  `UndoAfterFailedReplacement`: it restores the tree exactly when nothing was removed, or the source was inside what it
  replaced).
- **Entries in each other's way.** An archive that names a file twice, or a file above another entry, is not extracted at
  all (`ArchiveContents`).
- **A name shortage in the middle of a transfer** is returned as an error and the log of the finished sources is dropped
  (`apps/focaldesk-files/src/transfer.rs:207`).
- **A move across devices out of the replaced item.** When the source lies inside the destination that it replaces, the
  removal of the source path at the end takes a part of the new copy; the original is whole in the backup. The ledger
  covers this case as well.
- **Escape while authenticating** leaves a second request unanswered; its reply starts a session nobody asked for
  (`EscapeWhileAuthenticatingStartsASession`). Alignment of requests and replies holds exactly without it.
- **Carriage returns** are already gone when the code replaces them (`CarriageReturnsAreAlreadyGone`), so a lone one
  joins two lines; so do a vertical tab, a form feed and U+0085, which the code means to break lines
  (`ControlsAreDropped`).
- **Stream deltas** are stripped one by one; a sequence cut by a delta boundary leaks its tail (`CutSequenceLeaks`).
- **A pending long name** is left for the next entry when a pax path was pending too (`LongNameLeftBehind`).
- **Conversations.** A state file with an empty list of conversations stays empty; a request sent then owns no entry.

## Model

| member | source | states |
|---|---|---|
| TransferTree.RenameClosed | apps/focaldesk-files/src/transfer.rs:468-498 | A rename that the system can make leaves every path in a directory, the old name gone and the new one there. |
| TransferTree.RenamedTwice | apps/focaldesk-files/src/transfer.rs:487-490 | Renaming back restores the whole tree. |
| TransferTree.RenameFound | apps/focaldesk-files/src/transfer.rs:219-226 | A rename keeps every item of the first tree at a path of its own. |
| TransferDisk.FileSystem.Rename | apps/focaldesk-files/src/transfer.rs:219-220 | A rename between spots either changes nothing or exchanges exactly the two subtrees, and is recorded as one call; nothing is lost, and it fails only when impossible or by trouble of the system. |
| TransferDisk.FileSystem.RemovePath | apps/focaldesk-files/src/transfer.rs:561-572 | Success takes away exactly the subtree, and nothing for an absent path; failure may leave part of it but touches nothing else; refused for paths below which the ledger lists an item. |
| TransferDisk.FileSystem.Repoint | apps/focaldesk-files/src/transfer.rs:279-298 | Items may be credited to their copies before the source of a move is removed. |
| TransferDisk.RelocatedLedger | apps/focaldesk-files/src/transfer.rs:182-323 | The ledger survives a relocation between sources and entries of the target, trees staying in one piece when the sources are separate. |
| TransferDisk.StandsWhole | apps/focaldesk-files/src/transfer.rs:182-323 | With separate sources, where nothing is lost each source's full tree and each entry of the target stands whole at a source, stage, destination or backup path. |
| TransferDisk.HistoryMeans | apps/focaldesk-files/src/transfer.rs:182-323 | The recorded states lead from the first tree to the present one, each following from the one before by one call that made, changed or removed one item or renamed one; none of them has lost an item, and with separate sources each source and each entry of the target stands whole in all of them. |
| Basics.CancelFlag.Load | apps/focaldesk-files/src/transfer.rs:326-335 | The flag may be raised at any look and never falls. |
| TransferScan.BytesUnion | apps/focaldesk-files/src/transfer.rs:371-384 | Sizes of disjoint sets of paths add up, so the order of directory entries does not matter. |
| TransferScan.ChildShare | apps/focaldesk-files/src/transfer.rs:371-384 | A child's size and entries are counted once beside those before it, within the whole. |
| TransferScan.ReadDir | apps/focaldesk-files/src/transfer.rs:372-373 | Reading a directory gives exactly its children, each once, in any order. |
| TransferScan.ScanEntry | apps/focaldesk-files/src/transfer.rs:337-385 | Success returns the size of everything below, having counted each entry once, within 128 levels and 100,000 entries and without special files; failure has one of the stated reasons. |
| TransferPreflight.Preflight | apps/focaldesk-files/src/transfer.rs:125-161 | Succeeds only for an acceptable request, with the size of each source and a total below 2^64; fails only for cancellation, trouble or an unacceptable request. |
| TransferCopy.WriteCopy | apps/focaldesk-files/src/transfer.rs:404-421 | However the reads are split the copy has the content and mode of the source and an inode of its own, and the progress grew by its size; failure touches nothing beside the new path. |
| TransferCopy.NotCopiedYet | apps/focaldesk-files/src/transfer.rs:396-426 | A file not in the hard-link map has not been copied under another name. |
| TransferCopy.LinkFits | apps/focaldesk-files/src/transfer.rs:397-402 | Linking to the mapped copy shares exactly with the copies of the same file. |
| TransferCopy.CopyFile | apps/focaldesk-files/src/transfer.rs:395-428 | After copying or linking a file, copies share an inode exactly when their sources do, and every file with several links can be found in the map. |
| TransferCopy.CopyDirectory | apps/focaldesk-files/src/transfer.rs:429-439 | The directory's copy mirrors all its children and ends with its mode. |
| TransferCopy.CopyEntry | apps/focaldesk-files/src/transfer.rs:387-444 | The copy has the same shape, contents, modes and link targets, shares inodes exactly where the source does and none with the old tree; the progress grew by the size that the scan sums; failure changes nothing beside the destination and has one of the stated reasons. |
| TransferSteps.CopyRenamed | apps/focaldesk-files/src/transfer.rs:468-472 | A copy renamed from its stage to a free path is that copy made there. |
| TransferSteps.WithoutCopy | apps/focaldesk-files/src/transfer.rs:231-245 | Taking a copy away restores the tree from before. |
| TransferCommit.UniqueSibling | apps/focaldesk-files/src/transfer.rs:534-555 | Returns an absent entry of the same directory, or none when all 1000 candidates are taken. |
| TransferCommit.AvailableDestination | apps/focaldesk-files/src/transfer.rs:504-532 | Returns the first of the 10,000 copy names that is free; none only when all are taken. |
| TransferCommit.CopyNameKeepsExtension | apps/focaldesk-files/src/transfer.rs:504-532 | The copy of a name with an extension has " copy " and the number before the last dot. |
| TransferCommit.CopyNameAtEnd | apps/focaldesk-files/src/transfer.rs:504-532 | The copy of a name without an extension has them at its end. |
| TransferCommit.CopyNamesDiffer | apps/focaldesk-files/src/transfer.rs:515-527 | The copy names of an item are all different. |
| TransferCommit.CommitStage | apps/focaldesk-files/src/transfer.rs:462-502 | Each outcome with its exact tree: moved to the free name, replaced with the old item in a backup, kept under the first free copy name, or skipped; on an error the tree is as before unless the rollback failed too. |
| TransferCommit.CommitReplacing | apps/focaldesk-files/src/transfer.rs:484-500 | Replacing puts the old item at a fresh backup and the stage in its place, or rolls back. |
| TransferCommit.TakeBack | apps/focaldesk-files/src/transfer.rs:241-275 | Taking back a staged source restores the tree from before the stage unless the call fails. |
| Transfer.RenamedThrough | apps/focaldesk-files/src/transfer.rs:219-220 | Renaming by way of a free stage is renaming. |
| Transfer.ArrivedAt | apps/focaldesk-files/src/transfer.rs:219-277 | Staging and committing together put exactly the source at the destination, for both ways of staging and all policies, also when the source lies inside what it replaces. |
| Transfer.StageRoot | apps/focaldesk-files/src/transfer.rs:217-229 | After success the source is staged by rename or as a copy; after failure at most the stage has appeared. |
| Transfer.FinishRoot | apps/focaldesk-files/src/transfer.rs:279-321 | The logged undo entry fits the change of the tree and the operation asked for: a copy leaves its source, and so does a move only when the removal of the source fails, which is reported, logged as the code does, and alone makes the outcome unclean. |
| Transfer.CommitRoot | apps/focaldesk-files/src/transfer.rs:241-321 | From the stage on: cancelled, skipped and failed sources are taken back, others logged as the operation asks; a flag raised before is respected; errors have reasons; unclean if and only if a call that was to undo or to remove failed. |
| Transfer.RunRoot | apps/focaldesk-files/src/transfer.rs:182-322 | One turn of the loop: the tree is unchanged or changed exactly as the logged step says, under the name the policy asks for and in the way the operation asks for, unless a rollback or a removal failed, which the outcome tells exactly; a flag raised before makes it do nothing; report and reasons for every other outcome. |
| Transfer.StepLeaves | apps/focaldesk-files/src/transfer.rs:182-322 | A step changes nothing at the other sources when these are separate. |
| Transfer.StepTakes | apps/focaldesk-files/src/transfer.rs:279-321 | With separate sources a step leaves its own source as it was when it logs a copy, and nothing of it at the old place when it logs a move. |
| Transfer.FatesOf | apps/focaldesk-files/src/transfer.rs:182-322 | So at the end of a chain every source is gone when a step has taken it, and otherwise unchanged with everything below it. |
| Transfer.SoFarNext | apps/focaldesk-files/src/transfer.rs:182-322 | The invariant of the loop: steps in order, exact byte sum that never saturates, a chain of states, sources to come untouched. |
| Transfer.RunTransfer | apps/focaldesk-files/src/transfer.rs:120-324 | For every run that returns a report, cancelled and partly failed ones included: one undo entry per completed source, bytes the exact sum of the scanned sizes; each step fits the next state from the first tree to the last, however many calls fail, unless one that was to undo or to remove something does; the recorded states lead from the first tree to the last by single calls, with nothing lost in any of them and, with separate sources, each source and replaced item whole; every log entry is of the kind that the request asks for, so that a copy of separate sources leaves each as it was, and a move leaves none that it completed without an error at its old place; a flag raised before the start lets nothing happen; and without trouble or cancellation an acceptable request with separate sources ends with every source completed or skipped and no error. |
| TransferUndoSteps.UndoStep | apps/focaldesk-files/src/main.rs:7749-7876 | Every way of executing a logged step, from a tree like that after it, leads to a tree like that before it if and only if the step is undoable, to the very inodes unless the move copied; when it is not, it leaves a visible difference. |
| TransferUndoCopy.PlainBack | apps/focaldesk-files/src/main.rs:7766-7769 | Moving back by copying restores what was there but for inodes when it has only files, and folders of the usual mode. |
| TransferUndoCopy.SpoiltBack | apps/focaldesk-files/src/main.rs:8000-8012 | Otherwise some link or folder mode is not kept. |
| TransferUndoSteps.PlainBefore | apps/focaldesk-files/src/transfer.rs:217-229 | Whether a move by copying can be undone shows on the source before the move. |
| TransferUndoSteps.MovedLinkIsLost | apps/focaldesk-files/src/main.rs:8000-8012 | A link in a folder moved across devices, or an unusual folder mode, is not brought back. |
| TransferUndoSteps.LinkToNowhereStays | apps/focaldesk-files/src/main.rs:7751-7786 | A created or moved link that leads nowhere stays where it is when its step is undone. |
| TransferUndoSteps.UndoAfterFailedRemoval | apps/focaldesk-files/src/transfer.rs:279-298 | After a failed removal of the source, logged as a creation, undoing restores the tree if and only if nothing had been removed. |
| TransferUndoSteps.UndoAfterFailedReplacement | apps/focaldesk-files/src/transfer.rs:286-291 | The same with a backup, logged as a replacement by a copy; a source from inside the replaced item is always restored. |
| TransferUndoSteps.HiddenByReplacement | apps/focaldesk-files/src/main.rs:7766-7769 | Undoing a copied move out of a copy and then the replacement that made this copy restores the tree whatever the first undoing has spoilt. |
| TransferUndoSteps.ExecutesBeside | apps/focaldesk-files/src/main.rs:7749-7876 | Executing a step, whatever comes of it, touches nothing beside its own paths. |
| TransferUndoRun.DifferenceStays | apps/focaldesk-files/src/main.rs:7749-7876 | An entry too many in the target, or something missing or changed outside it, outlasts the undoing of every earlier step, whatever comes of that. |
| TransferUndoRun.NoWayBack | apps/focaldesk-files/src/main.rs:4112-4135 | With a step that is not undoable the undoing, which goes on after errors, does not end in the first tree. |
| TransferUndoRun.ExactUndo | apps/focaldesk-files/src/main.rs:4082-4135 | For every logged run, undoing it in the order of the application, which reverses the log, and going on after errors, ends without errors in a tree like the first if every entry is undoable, in the very first tree if no move copied; and only if every entry is undoable, when no copied move came from inside the target. |
| TransferUndoRun.ReportIsUndone | apps/focaldesk-files/src/transfer.rs:301-323 | The same for the report of a run, from what `RunTransfer` promises of it. |
| TransferUndoJob.UndoDisk.CopyPathRecursively | apps/focaldesk-files/src/main.rs:8000-8012 | The recursion copies every file and folder that no link stands above, follows links, touches nothing beside its destination, fails only for links, special files or a place where nothing can be made, and comes to an end. |
| TransferUndoJob.UndoDisk.MoveItemBack | apps/focaldesk-files/src/main.rs:7751-7776 | Moving back is a rename or a copy and a removal, after the two looks at what exists. |
| TransferUndoJob.UndoDisk.RestoreReplacedCopy | apps/focaldesk-files/src/main.rs:7822-7836 | The three calls and the way back restore the replaced item or change nothing. |
| TransferUndoJob.UndoDisk.RestoreReplacedMove | apps/focaldesk-files/src/main.rs:7838-7857 | Moving the item back and the backup to its place, or as far as it gets. |
| TransferUndoJob.UndoDisk.UndoLastOperation | apps/focaldesk-files/src/main.rs:4112-4150 | The loop over the reversed log is a run of the relation that `ExactUndo` is about, down to where it is cancelled; what failed and what was not come to is left as the next record. |
| TransferUndoJob.UndoDisk.UndoLog | apps/focaldesk-files/src/main.rs:4082-4150 | Undoing a log ends without errors in a tree like the first if every entry is undoable, and only then when no copied move came from inside the target; cancelled, it has reached the state in between and left the record that leads on. |
| TarHeader.OctalRoundTrip | apps/focaldesk-files/src/archive.rs:619-630 | A written octal number is read back if and only if it fits the field less its terminator. |
| TarHeader.TarNumberIsOctal | apps/focaldesk-files/src/archive.rs:619-630 | Only octal digits, perhaps after a plus and between blanks and NULs, are taken for a number. |
| TarHeader.SealedValidates | apps/focaldesk-files/src/archive.rs:632-653 | A header whose checksum was written so validates, and nothing else changed. |
| TarHeader.OneByteChangeIsCaught | apps/focaldesk-files/src/archive.rs:632-653 | Changing any byte outside the checksum field makes a valid header invalid. |
| PaxRecords.ParsePaxPath | apps/focaldesk-files/src/archive.rs:593-617 | The loop computes the specification on arbitrary bytes, within bounds, and terminates. |
| PaxRecords.PaxRoundTrip | apps/focaldesk-files/src/archive.rs:593-617 | Reading records with self-including lengths gives the last path value, or none. |
| PaxRecords.ParsedIsRecords | apps/focaldesk-files/src/archive.rs:593-617 | A payload is accepted only when it is records one after the other, each as long as it says, and gives the path of the last one that has one. |
| PaxRecords.OwnLength | apps/focaldesk-files/src/archive.rs:593-617 | Every record has a length that counts its own digits. |
| ArchivePaths.SafePathStaysInside | apps/focaldesk-files/src/archive.rs:382-404 | An accepted path has 1 to 64 ordinary names and cannot leave the destination. |
| ArchivePaths.SafePathExactly | apps/focaldesk-files/src/archive.rs:382-404 | A path is accepted if and only if it is relative, has no parent segment and 1 to 64 names, and it is then these names; otherwise the error says whether it is too deep or unsafe. |
| ArchivePaths.SafePathRoundTrip | apps/focaldesk-files/src/archive.rs:382-404 | Every path inside is accepted as written, with or without a slash at its end. |
| ExtractionTree.EnsureDirectoryRecorded | apps/focaldesk-files/src/archive.rs:414-467 | Directories are made without touching what is there, and the record of created paths stays duplicate-free, parents first, new and below the destination. |
| ExtractionTree.CleanupCreatedPaths | apps/focaldesk-files/src/archive.rs:687-699 | Removing the record in reverse restores the tree from before when no call is refused, and never touches other paths. |
| TarStream.PaddingAgrees | apps/focaldesk-files/src/archive.rs:567-576 | The counted padded size is payload plus skipped padding. |
| TarStream.RecordStepBudget | apps/focaldesk-files/src/archive.rs:287-346 | After each record the bytes consumed equal those counted, the extracted sizes equal those reported, and all limits hold. |
| TarStream.ExtractWithinBudget | apps/focaldesk-files/src/archive.rs:262-348 | A finished extraction wrote exactly the bytes it reports, within the limits. |
| TarStream.LongNameLeftBehind | apps/focaldesk-files/src/archive.rs:294-316 | When exactly a long name is left for the next entry, and that this takes it whatever its own name. |
| TarExtraction.EnsureDirectoryAt | apps/focaldesk-files/src/archive.rs:425-467 | The loop over the disk does what the specification says and keeps the record, also when the disk fails. |
| TarExtraction.SkipTarPayload | apps/focaldesk-files/src/archive.rs:549-565 | Payload and padding are skipped exactly, however reads are split. |
| TarExtraction.ReadTarPayload | apps/focaldesk-files/src/archive.rs:536-547 | The payload is read exactly, however reads are split. |
| TarExtraction.CopyTarFile | apps/focaldesk-files/src/archive.rs:512-534 | The file gets exactly the bytes of its payload and the reader stands behind the padding; each error has its cause. |
| TarExtraction.FinishTarStream | apps/focaldesk-files/src/archive.rs:350-380 | The end of the stream is accepted or refused by its bytes alone. |
| TarExtraction.ExtractTar | apps/focaldesk-files/src/archive.rs:262-348 | For every way of splitting reads the outcome is that of the bytes alone, of which `ExtractedIsArchive` and `ArchiveRoundTrip` tell the meaning, unless flag, disk or reader stop it; the record of created paths is kept in every case. |
| TarRoundTrip.ArchiveRoundTrip | apps/focaldesk-files/src/archive.rs:262-380 | Extracting an encoded list of entries, with any carrier for each name and any filler, places exactly those entries. |
| TarRoundTrip.GlobalIsSkipped | apps/focaldesk-files/src/archive.rs:294-310 | A global pax header is passed over. |
| TarSoundness.ExtractedIsArchive | apps/focaldesk-files/src/archive.rs:262-380 | Any stream whose extraction succeeds is records one after the other, each with a checksum that agrees, a payload of the size told, padding to a full block and one of six types, then two blocks of zeros and at most one mebibyte more; and the result is that of placing their entries, under the names that the records before each give. |
| TarSoundness.BadChecksumIsRefused | apps/focaldesk-files/src/archive.rs:280-281 | In every state a header block that is not all zero, whose checksum can be read and does not agree, ends the extraction with invalid data. |
| TarSoundness.ChangedHeaderIsRefused | apps/focaldesk-files/src/archive.rs:632-653 | An encoded archive with any byte of any header outside the checksum field changed is refused, whatever follows, unless the header has become all zero. |
| TarContents.PlacedAllHolds | apps/focaldesk-files/src/archive.rs:318-346 | Placed entries are all there with their contents, nothing else is new, and the counts agree. |
| TarContents.AllPlaced | apps/focaldesk-files/src/archive.rs:318-346 | The entries can all be placed if and only if there are only folders on the way to each, nothing where its file is to be, and no file among them is at or above the path of another. |
| TarContents.ArchiveContents | apps/focaldesk-files/src/archive.rs:262-380 | Extracting an encoded list of entries into a new folder gives exactly their paths and contents, and what was there before, if no two entries clash; if two do it fails, because something exists already. |
| ZipExtraction.ZipWritesWhatWasDeclared | apps/focaldesk-files/src/archive.rs:159-224 | A successful zip extraction wrote what its files declared: the total of the first pass if and only if nothing else declares a size; so the ratio bound carries over. |
| ZipExtraction.CopyBounded | apps/focaldesk-files/src/archive.rs:475-510 | Success means exactly the declared bytes were written within both limits; each error has its cause. |
| ZipExtraction.ExtractZipEntry | apps/focaldesk-files/src/archive.rs:199-222 | One entry is placed as specified or refused for the specified reason. |
| ZipExtraction.ExtractZip | apps/focaldesk-files/src/archive.rs:159-224 | Both passes together compute the specification and keep the record. |
| ArchiveOutcome.ZipContents | apps/focaldesk-files/src/archive.rs:159-224 | A zip archive is extracted into a new folder if and only if it has at most 10,000 entries, all files or folders with safe paths whose bytes are as many as declared, at most 512 MiB each, 2 GiB and the ratio in total, and none in the way of another; the folder then holds exactly these. |
| ArchiveOutcome.ZipErrorTells | apps/focaldesk-files/src/archive.rs:159-224 | The error of a zip archive names something that is wrong with it: an unsafe entry, one too large, one too short, or too many or too much of them; entries that are fine are refused only for being in each other's way. |
| ArchiveExtraction.ExtractedWithinLimits | apps/focaldesk-files/src/archive.rs:74-157 | For each kind of archive the reported bytes are those of the created files, at most 2 GiB, and unless it is a plain tar at most a thousand times its size beside 64 MiB. |
| ArchiveOutcome.TarDelivered | apps/focaldesk-files/src/archive.rs:74-157 | A tar archive from a writer within the stated limits, compressed or not, is extracted as exactly its entries when none is in the way of another. |
| ArchiveExtraction.ExtractArchive | apps/focaldesk-files/src/archive.rs:74-157 | Success gives exactly the specified tree below a destination that was new; an error comes from a raised flag, a failed call, or a stated reason in the archive, its size or the destination; it leaves no trace when no removal is refused, and never touches what was there. |
| CalculatorReading.ReadingInvertsWriting | apps/focaldesk-launcher/src/main.rs:818-923 | A text derives a tree of the grammar if and only if reading gives that tree. |
| Calculator.EvaluatedDecidesGrammar | apps/focaldesk-launcher/src/main.rs:818-923 | An input has a value if and only if it derives a left-associative tree with that finite value, no divisor in it being zero. |
| Calculator.GrammarIsUnambiguous | apps/focaldesk-launcher/src/main.rs:818-923 | No input derives two trees. |
| Calculator.ExpressionParser.Expression | apps/focaldesk-launcher/src/main.rs:825-841 | The loop computes the value of the longest sum and stops behind it; the call depth is at most three per byte read. |
| Calculator.ExpressionParser.Factor | apps/focaldesk-launcher/src/main.rs:865-884 | Signs, groups and numbers have the value of the tree read, the depth still linear; `LeadingPlus` and `ParsePrint` tell what the signs mean. |
| Calculator.ExpressionParser.Parse | apps/focaldesk-launcher/src/main.rs:819-823 | The whole parser computes the specified value. |
| Calculator.Calculate | apps/focaldesk-launcher/src/main.rs:925-948 | A result exactly for inputs of 1 to 128 bytes with an operator and a value: its decimal text without trailing zeros. |
| CalculatorPrinter.ParsePrint | apps/focaldesk-launcher/src/main.rs:818-923 | Parsing a printed expression gives the finite value of the expression; the printed text is given character by character, without the grammar. |
| CalculatorLaws.LeadingPlus | apps/focaldesk-launcher/src/main.rs:868-871 | A plus in front of any input changes neither its value nor whether it has one. |
| CalculatorLaws.LeadingBlank | apps/focaldesk-launcher/src/main.rs:908-912 | Neither does a space, tab, line feed, form feed or carriage return. |
| LoginScreen.LoginState.Submit | apps/focaldesk-greeter/src/flow.rs:11-43 | Enter moves the screen and sends as specified, also when the thread is gone; `TellsWhatWasTyped` tells of what it sends that it was typed. |
| LoginScreen.LoginState.Cancel | apps/focaldesk-greeter/src/flow.rs:45-68 | Escape moves the screen and sends as specified in every phase. |
| LoginScreen.LoginState.OnResponse | apps/focaldesk-greeter/src/flow.rs:70-129 | A reply moves the screen, sends and exits as specified in every phase. |
| GreetdSocket.FrameRoundTrip | apps/focaldesk-greeter/src/greetd.rs:48-62 | A frame is read back with the rest of the stream if and only if its body is shorter than 2^32 bytes. |
| GreetdSocket.FrameOfShortBody | apps/focaldesk-greeter/src/greetd.rs:48-53 | The lowest byte of the length comes first. |
| GreetdSocket.FrameIsNotCutShort | apps/focaldesk-greeter/src/greetd.rs:55-62 | No proper prefix of a frame is taken for one. |
| GreetdSocket.FramesRoundTrip | apps/focaldesk-greeter/src/greetd.rs:48-62 | A stream of frames is read back as its bodies. |
| GreetdSocket.Serve | apps/focaldesk-greeter/src/greetd.rs:68-84 | The thread answers requests one by one in order, up to and including the first error. |
| GreeterProtocol.RunSane | apps/focaldesk-greeter/src/flow.rs:11-129 | The invariant of every state of every run. |
| GreeterProtocol.NeverWaitsInVain | apps/focaldesk-greeter/src/flow.rs:45-129 | Cancelling and starting always await a reply that is to come; authenticating does so exactly until the thread is gone and all it said was delivered. |
| GreeterProtocol.EscapeReturnsToUsername | apps/focaldesk-greeter/src/flow.rs:45-68 | From every phase but Starting, Escape and at most one reply lead back to the username; from a failure Enter does so as well. |
| GreeterProtocol.Balance | apps/focaldesk-greeter/src/flow.rs:11-129 | In every run with a living thread the excess of outstanding requests is Escapes while authenticating less stray replies. |
| GreeterProtocol.AlignedExactlyWithoutEscape | apps/focaldesk-greeter/src/flow.rs:11-129 | Exactly one request is outstanding while waiting and none otherwise, in all states of a run, if and only if Escape is never pressed while authenticating. |
| GreeterProtocol.ConversationIsOrderly | apps/focaldesk-greeter/src/flow.rs:70-129 | Each request reacts to the answer to the one before, and a session starts only on the Success to the login request sent last. |
| GreeterText.TellsWhatWasTyped | apps/focaldesk-greeter/src/flow.rs:11-68 | In every run each answer that greetd is given is the text typed since the line was last emptied, each login name that text without the blanks at its edges; a session is cancelled by Escape only and started on a Success only, with the command and environment stated. |
| GreeterText.ShowsWhatWasSaid | apps/focaldesk-greeter/src/flow.rs:70-129 | In every state the prompt, and whether it is hidden, is that of the reply delivered last; a failure is told in its words; the process ends on Success only. Each reply is told unless the screen is cancelling. |
| GreeterProtocol.EscapeWhileAuthenticatingStartsASession | apps/focaldesk-greeter/src/flow.rs:45-68 | The run that shows why the hypothesis is needed. |
| TerminalEscapes.StripSplits | apps/focaldesk-cli/src/main.rs:2004-2043 | Stripping is a finite transducer: it splits at any cut. |
| TerminalEscapes.CutIsHarmlessInGround | apps/focaldesk-cli/src/main.rs:1963-1966 | A cut is harmless for every continuation if and only if it falls in the ground state. |
| TerminalEscapes.StreamingStripsTheWhole | apps/focaldesk-cli/src/main.rs:1963-1966 | Stripping deltas one by one strips the whole when every boundary is in the ground state. |
| TerminalEscapes.CutSequenceLeaks | apps/focaldesk-cli/src/main.rs:1963-1966 | A delta boundary inside a sequence leaks its tail. |
| TerminalEscapes.StripIsHarmless | apps/focaldesk-cli/src/main.rs:2004-2043 | The output has no escape character and no control but newline and tab. |
| TerminalEscapes.StripKeepsHarmless | apps/focaldesk-cli/src/main.rs:2004-2043 | Harmless text is unchanged. |
| TerminalEscapes.StripOnlyRemoves | apps/focaldesk-cli/src/main.rs:2004-2043 | The output is a subsequence of the input. |
| TerminalEscapes.ControlSequenceVanishes | apps/focaldesk-cli/src/main.rs:2011-2018 | Control sequences of section 5.4 of ECMA-48 vanish, what surrounds them stays. |
| TerminalEscapes.OscVanishes | apps/focaldesk-cli/src/main.rs:2019-2030 | Operating system commands of section 5.6 of ECMA-48 vanish, ended by BEL or ST. |
| TerminalEscapes.OtherSequencesLeak | apps/focaldesk-cli/src/main.rs:2031-2035 | Other sequences lose only the escape character and the one behind it. |
| TerminalEscapes.StripTerminalSequences | apps/focaldesk-cli/src/main.rs:2004-2043 | The loops with their peeks compute the transducer. |
| TerminalOutput.RenderAiOutput | apps/focaldesk-cli/src/main.rs:1876-1915 | The line loop computes the layout function, truncation included, of which `RenderedIsCut` tells the meaning. |
| TerminalLayout.RenderedIsCut | apps/focaldesk-cli/src/main.rs:1888-1912 | What is printed are the lines with content, one blank line between two of them where there was one or more, up to the first place where 128 lines or 8192 bytes are reached; the marker follows if and only if a line was left. |
| TerminalLayout.CountsBytes | apps/focaldesk-cli/src/main.rs:1897-1907 | The bytes counted are those of UTF-8. |
| TerminalLayout.Utf8IsRead | apps/focaldesk-cli/src/main.rs:1897-1907 | Those bytes stand for one character only, whatever follows them. |
| TerminalLayout.SeparatorsBreakLines | apps/focaldesk-cli/src/main.rs:1917-1922 | U+2028 and U+2029 break a line as a newline does. |
| TerminalLayout.ControlsAreDropped | apps/focaldesk-cli/src/main.rs:1877-1880 | A carriage return, a vertical tab, a form feed and U+0085 do not. |
| TerminalRendering.CarriageReturnsAreAlreadyGone | apps/focaldesk-cli/src/main.rs:1877-1880 | The replacement of carriage returns behind the filter never acts. |
| TerminalRendering.RenderIsIdempotent | apps/focaldesk-cli/src/main.rs:1876-1922 | Rendering twice is rendering once, for every input, truncated or not. |
| TerminalRendering.RenderedShape | apps/focaldesk-cli/src/main.rs:1876-1915 | At most 130 lines; no blank line at either edge and no two in a row up to the truncation marker; no blank at the start of the text or the end of a line. |
| TerminalRendering.LayoutKeepsSolid | apps/focaldesk-cli/src/main.rs:1884-1912 | The lines that are not blank are kept in order: all, or a prefix when truncated. |
| ShellQuote.QuotedIsOneWord | apps/focaldesk-portal/src/main.rs:212-225 | A shell reads the quoted text as exactly one word equal to the text (sections 2.2.1 to 2.2.3 of POSIX.1-2017 XCU). |
| ShellQuote.QuotedIsInjective | apps/focaldesk-portal/src/main.rs:212-225 | Different texts are quoted differently. |
| ShellQuote.UnquotedExactlyWhenPlain | apps/focaldesk-portal/src/main.rs:212-225 | Exactly the texts of letters, digits, slashes, dots, underscores and hyphens go without quotes. |
| Painting.PixelBytes | apps/focaldesk-greeter/src/drm_backend.rs:170-178 | The four bytes at a pixel's offset are exactly that pixel. |
| Painting.PixelIsRgb | apps/focaldesk-greeter/src/drm_backend.rs:170-178 | The four bytes of a pixel are the number 0xRRGGBB, lowest byte first. |
| Painting.FillRect | apps/focaldesk-greeter/src/drm_backend.rs:180-187 | Exactly the pixels of the rectangle take the colour; every other byte is unchanged. |
| Painting.DrawRectBorder | apps/focaldesk-greeter/src/drm_backend.rs:189-201 | Exactly the pixels within the thickness of an edge take the colour. |
| Painting.DrawChar | apps/focaldesk-greeter/src/font.rs:152-176 | Exactly the scaled set bits of the glyph take the colour. |
| Painting.DrawText | apps/focaldesk-greeter/src/font.rs:178-191 | Exactly the glyph bits take the colour, character i in the i-th cell of one advance. |
| Painting.RowIsBinary | apps/focaldesk-greeter/src/font.rs:163-166 | The bits of a glyph row from left to right are its binary digits. |
| Painting.BitIsSquare | apps/focaldesk-greeter/src/font.rs:162-191 | Each bit of each character is a square of the scale at its column and row, the first row on top, six columns to a character. |
| Painting.TextStaysInBox | apps/focaldesk-greeter/src/font.rs:193-196 | A drawn text stays in the box that its width promises. |
| Conversations.KeptKeeps | apps/focaldesk-ai-console/src/main.rs:9046-9070 | Compaction keeps every other conversation in order and at most one placeholder, one if there was any. |
| Conversations.UsedAreKept | apps/focaldesk-ai-console/src/main.rs:442-446 | No conversation in which something was said, or which was named or summed up, is lost or moved; at most one other stays. |
| Conversations.KeptIs | apps/focaldesk-ai-console/src/main.rs:9046-9070 | Everything up to the first placeholder is kept, and behind it all but placeholders. |
| Conversations.CompactedActive | apps/focaldesk-ai-console/src/main.rs:9040-9084 | The active index stays valid, on the same conversation when that is kept, else on the first. |
| Conversations.CompactedTwice | apps/focaldesk-ai-console/src/main.rs:9040-9084 | Compaction is idempotent, active index included. |
| Conversations.Console.Compact | apps/focaldesk-ai-console/src/main.rs:9040-9084 | The loop computes the compacted state. |
| Conversations.RepliedKeepsUser | apps/focaldesk-ai-console/src/main.rs:7493-7502 | Setting a reply changes what the user said if and only if the last message is the user's. |
| Conversations.Console.Dispatch | apps/focaldesk-ai-console/src/main.rs:7240-7272 | A request starts exactly when sending is on and the prompt is not blank; it pushes the prompt and an entry of its own to the active conversation, or to the last, and changes no other. |
| Conversations.Console.OnDelta | apps/focaldesk-ai-console/src/main.rs:7356-7365 | The request's own entry shows all that has arrived; no title, no user message and no other conversation changes. |
| Conversations.Console.OnEnd | apps/focaldesk-ai-console/src/main.rs:7366-7438 | The end of a request writes only its own entry and turns sending on again. |
| Conversations.Console.OnCancelled | apps/focaldesk-ai-console/src/main.rs:7439-7467 | A cancelled request keeps what had arrived in its own entry. |
| Conversations.Console.NewConversation | apps/focaldesk-ai-console/src/main.rs:7648-7691 | The last placeholder is reused or one is added at the end; no index moves. |
| ThumbnailCache.ListFiles | apps/focaldesk-files/src/thumbnails.rs:117-136 | The visible files, each once, oldest first. |
| ThumbnailCache.PruneCache | apps/focaldesk-files/src/thumbnails.rs:117-148 | What is left are the files not tried and those whose deletion failed; before every attempt what was left then was over 512 entries or 128 MiB, and at the end it is within them or all were tried; without failures the deleted files are the shortest oldest-first prefix; folders, hidden files and everything else are not touched. |
| ThumbnailCache.OldestGoFirst | apps/focaldesk-files/src/thumbnails.rs:136-147 | No deleted file is newer than one that was not tried. |
| ThumbnailCache.StillOverMeans | apps/focaldesk-files/src/thumbnails.rs:139-147 | Being over a limit is more than 512 files or more than 128 MiB of what is left. |
| ThumbnailCache.PrunedNext | apps/focaldesk-files/src/thumbnails.rs:139-147 | One attempt, successful or not, keeps the invariant. |

## Left out

- Timestamps, ownership and permission checks: a call that the system refuses is one that fails of its own accord.
- Other processes changing the file system during an operation, and paths that are not canonical: paths are sequences of
  names from the root without links on the way, so a path other than the root always has a file name.
- Devices: whether a source is on the target's device is chosen freely for each source. A rename onto an
  existing item is not modelled for a transfer: the new name of every rename is proved absent.
- Progress events and the wording of errors: errors are kinds, with the path they name.
- TransferCommit.UniqueSibling: the time in a private name is any text but one that makes it the name of the item itself.
- TransferCommit.AvailableDestination: which names are UTF-8 text is a parameter.
- TransferUndoSteps.UndoStep: no call fails by itself while a step is undone; what the library does to move an item to
  another device is taken as documented, with a parameter for links; where links lead is a parameter that depends on
  paths and items only. Nothing is said of the two places when a link that leads nowhere lies at the old place of a moved
  item, where a rename replaces it and a copy would write through it.
- TransferUndoRun.ExactUndo: without the hypothesis on copied moves from inside the target the "only if" is false, as
  `HiddenByReplacement` shows.
- TransferUndoJob.UndoDisk.UndoLastOperation: the bound on the number of records kept, and the disposal of the backups of
  an expired record. The private name that restoring a copy passes through is a parameter that is free when asked for.
- TransferUndoJob.UndoDisk.CopyPathRecursively: a path through links ends at a given length, as the system's limit does.
- GreeterProtocol.NeverWaitsInVain: the thread's death is one step with its last reply, though the request channel closes
  a moment after that reply is sent; a request sent in between would get no answer.
- Decompression of gzip, xz and zip, and the choice of the archive kind by name: the decoded bytes are given.
- TarHeader.OctalRoundTrip: numbers with more digits than the field are not written by the encoder.
- Calculator: floating-point rounding and the decimal text of a number; the trimming of the input before the parser.
- Greeter: JSON in the frames; bodies are bytes. Drawing, keyboard maps and the session after the login.
- The painting of the whole login box, which may draw long texts beyond the frame; the painting methods are stated for
  drawings inside the frame whose offsets fit 32 bits, the frame size being a ghost parameter.
- Painting.PutPixel: the silent refusal of offsets behind the buffer cannot occur inside the frame.
- Conversations: building the request text, model selection and persistence.
- ThumbnailCache: the sum of the sizes is not bounded by 64 bits.
- The desktop shell, the compositor protocols, the AI services, the settings pages and all widgets: user interface or thin
  layers over libraries.
