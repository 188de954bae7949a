# scripts-utils, modelled in Dafny

A model of the deterministic core of the small command-line utilities in
the `scripts-utils` collection, with proofs of what each one promises.

- **backupper**: reads an XML description of directories to archive.
  `getCommands` turns each `<dir>` element into `tar`/`gzip` commands.
  Those are plain `Command` objects with four fields. `process` walks the
  `<commonDirs>` sections. `generateMD5Sums` makes one `md5sum` command
  per archive.
- **ratt** and **rename_according_date**: rename photos after their time
  stamp, `YYYY-MM-DD-dow-HH-MM-SS`. ratt can shift the time by whole
  hours and numbers files that share a stamp. rename_according_date
  numbers duplicates inside its `createNewFileNames` dictionary.
- **ep**: replaces a text in file names (by default a space by `_`). In
  track-list mode (`-t`) the first space becomes `-`. It then renames the
  files.
- **vfat_chars_check**: walks a tree and reports names with characters a
  VFAT file system refuses.
- **create_web_gallery**: builds the HTML table of thumbnails and the
  thumbnail names.
- **tweeter**: keeps a pool of words from `fortune`, draws words into a
  message until it reaches 130 characters (the last word may carry it past),
  frames it with a counter and cuts it to 140.
- **md5check** / **md5_recursive_tester**: identical up to variable
  names. They run `md5sum -c` on every checksum file `find` reports and
  tally the lines the checker prints.
- **mp3_sort_transfer**: copies album directories into per-letter
  buckets.
- **gpg**: chooses between encrypting to `<name>.gpg` and decrypting back
  to `<name>`, and never writes over an existing file.

How the model is organised:

- Each script is one module.
- Shared pieces have their own modules:
  - `Results`: `Option` and `Result`;
  - `Strings`: `strip`, `split`, `find`, `rfind`, `replace`, `lower`;
  - `Digits`: `%d` and `%02d`;
  - `Paths`: `os.path.join`, `dirname`, `basename`, `splitext`;
  - `StringOrder`: the order `sort()` uses on strings;
  - `Civil`: the proleptic Gregorian calendar of Python's `datetime`;
  - `FileSys`: a file system as the set of names that exist.
- Code that changes state step by step is written as methods with loops,
  proved against a specification function. Examples are the loops of
  `createNewFileNames`, `printer`, `_getMsg`, `check_names` and
  `createHTMLTable`, and the renaming loops.
- `Command`, whose setters update its fields, is a class.
- The rest is functions and lemmas.
- An exception the scripts let escape is the `Err` of a `Result`.
  `sys.exit(1)` is a `false` outcome.

## Model

| member | source | states |
|---|---|---|
| Backupper.Command.constructor | backupper/backupper.py:256-265 | a new command has the given directory, no command, no log file and an empty log prefix |
| Backupper.Command.SetCommand | backupper/backupper.py:267-268 | only the command field changes, to the given text |
| Backupper.Command.SetStdOutLogFile | backupper/backupper.py:270-271 | only the log-file field changes |
| Backupper.Command.SetLogPrefix | backupper/backupper.py:273-274 | only the log prefix changes |
| Backupper.Values | backupper/backupper.py:276-286 | the getters' view of a list of commands, one state per command in order |
| Backupper.FormatPlain | backupper/backupper.py:194 | `%` formatting leaves a template without `%` unchanged |
| Backupper.FormatField | backupper/backupper.py:194 | a `%(key)s` field is replaced by the dictionary's value for the key |
| Backupper.FormatOneField | backupper/backupper.py:204-205 | a template with one field gives the text around it with the value in between |
| Backupper.CommandsFor | backupper/backupper.py:164-214 | `None` exactly when the dir has neither srcDir nor actions; srcDir without actions fails with AttributeError; actions without srcDir and archiveName fail with TypeError |
| Backupper.CommandsShape | backupper/backupper.py:182-212 | three commands when actions has three parts, else one; all change to `changeTo`; only the tar command logs, to archive-filelist.log, after its banner |
| Backupper.TarCommandArchive | backupper/backupper.py:176-194 | for any `<dir>` that gets commands (a non-empty `srcDir` or `actions`, and a name from `archiveName` or a present `srcDir`, even an empty one), the tar command's `%(archive)s` becomes `<destDir>/<dest>/<archiveName or srcDir>.tar` |
| Backupper.ZipArchiveIsTarGz | backupper/backupper.py:208-211 | the gzip test command's `%(zipArchive)s` is the tar archive's name with `.gz` |
| Backupper.ActionsTarField | backupper/backupper.py:191-194 | the first action's `%(archive)s` field is filled with the tar path |
| Backupper.ActionsZipField | backupper/backupper.py:209-211 | the third action's `%(zipArchive)s` field is filled with the tar path plus `.gz` |
| Backupper.NoExcludeOptions | backupper/backupper.py:186-190 | without an exclude attribute the `%(exclude)s` text is empty |
| Backupper.ExcludeOptionsSplit | backupper/backupper.py:187-188 | the exclude text splits into `--exclude item` word pairs, one per stripped item |
| Backupper.NewTarCommand | backupper/backupper.py:185-200 | a fresh command holding the tar command, the file-list log and the banner prefix |
| Backupper.NewPlainCommand | backupper/backupper.py:203-212 | a fresh command holding only the gzip command |
| Backupper.RunActions | backupper/backupper.py:182-212 | the objects built hold exactly the command states `CommandsFor` prescribes, or its error |
| Backupper.GetCommands | backupper/backupper.py:149-214 | `getCommands` on objects agrees with `CommandsFor`, with fresh objects |
| Backupper.SkipsIncomplete | backupper/backupper.py:230-234 | a section without destination or changeTo adds nothing |
| Backupper.ProcessAppend | backupper/backupper.py:238-241 | commands keep the order of the sections, and the made directories add up |
| Backupper.ProcessStaysFailed | backupper/backupper.py:216-251 | after an exception, later sections change nothing |
| Backupper.SectionRun | backupper/backupper.py:238-241 | a section's `<dir>` commands in order, or the first exception |
| Backupper.ProcessSection | backupper/backupper.py:230-248 | one section: its commands are added and its destination directory is made if missing |
| Backupper.Process | backupper/backupper.py:216-251 | the commands, the directories made and the error are those of the specification over all sections |
| Backupper.RelativeNameInside | backupper/backupper.py:334-336 | a file `<dstDir>/<rel>` gets relative name `rel` |
| Backupper.Md5SumCommand | backupper/backupper.py:331-341 | the command exists exactly when the archive's name relative to the backup directory is non-empty (otherwise the `IndexError`); it runs in the backup directory and logs to md5checksum.log |
| Backupper.Md5SumCommandInside | backupper/backupper.py:331-341 | for an archive `<dstDir>/<rel>` the command is exactly `md5sum <rel>`, run in the backup directory, logging to md5checksum.log |
| Civil.AddDaysAdd | ratt/ratt.py:91-92 | moving by a days and then b days is moving by a + b days |
| Civil.DayNumberAddDays | ratt/ratt.py:91-92 | moving by n days adds n to the day number |
| Civil.Weekday | ratt/ratt.py:97 | `weekday()` is in 0..6, Monday being 0 |
| Civil.ShiftHours | ratt/ratt.py:90-92 | a zero offset keeps the time; a shifted time is valid, keeps minutes and seconds, and has its hour moved by the offset modulo 24 |
| Civil.ShiftWeekday | ratt/ratt.py:91-97 | a shift moves the date and the weekday by the number of midnights crossed |
| Civil.ShiftRoundTrip | ratt/ratt.py:91-92 | shifting back by the same hours restores the time |
| Civil.StampRoundTrip | ratt/ratt.py:94-101 | every field of a stamp can be read back from it |
| Civil.StampShaped | ratt/rename_according_date.py:24-25 | a stamp is digits followed by the fixed 19-character tail |
| Civil.StampPlain | ratt/rename_according_date.py:24-25 | a stamp holds no '.' and no '/' |
| Civil.StampPrefixUnique | ratt/ratt.py:186-188 | two stamps that begin equal texts are equal, and so are the rests |
| Civil.StampLength | ratt/ratt.py:94-101 | a stamp is 19 characters longer than its year |
| Ratt.SanitiseOffset | ratt/ratt.py:73-80 | a non-zero offset comes from a parsable argument; a parsable argument gives its value |
| Ratt.SanitiseOffsetAccepts | ratt/ratt.py:73-80 | every integer written in decimal is accepted as itself |
| Ratt.SanitiseOffsetExamples | ratt/test/test_ratt.py:25-45 | no option gives 0, "9" gives 9, "a" and "2.3" fall back to 0 |
| Ratt.Rejected | ratt/ratt.py:74-79 | an argument with a non-digit (other than a leading sign) falls back to 0 |
| Ratt.DateTimeString | ratt/ratt.py:83-102 | offset 0 gives the stamp of the time; the result fails exactly when the shift leaves the years 1..9999 |
| Ratt.DateTimeStringShows | ratt/ratt.py:90-101 | the string is the stamp of the time moved by the offset, with its weekday |
| Ratt.DateTimeStringExamples | ratt/test/test_ratt.py:48-75 | the four dates of the test, including crossing midnight both ways |
| Ratt.Files | ratt/ratt.py:142-144 | the entries that are not directories, in order |
| Ratt.NewFileNamesSpec | ratt/ratt.py:141-152 | one (stamp, name) pair per file in order, or the first shift error |
| Ratt.NewFileNamesOk | ratt/ratt.py:141-152 | the pairs exist exactly when every file's time can be shifted |
| Ratt.NewFileNamesPairs | ratt/ratt.py:151-152 | pair i is the stamp of file i and its name |
| Ratt.GroupMembers | ratt/ratt.py:171-175 | a name is in a stamp's group exactly when that pair was produced |
| Ratt.ExactlyOneGroup | ratt/ratt.py:171-175 | with distinct names, each name is in the group of its own stamp only |
| Ratt.GetFileRenameData | ratt/ratt.py:164-176 | the dictionary's keys are the stamps, and each value is its group in order |
| Ratt.TargetKeepsExtension | ratt/ratt.py:184-188 | the new name keeps the extension of the old one |
| Ratt.GroupPlan | ratt/ratt.py:181-189 | file i of a group is renamed to the stamp, counter i + 1 when the group has more than one file, and its extension |
| Ratt.PlanCovers | ratt/ratt.py:179-189 | a rename is planned exactly when its source is in some group and its target is that group's name for it |
| Ratt.GroupTargetsDistinct | ratt/ratt.py:181-189 | the files of one group get different names |
| Ratt.CountersDiffer | ratt/ratt.py:185-186 | different counters give different names |
| Ratt.PlanTargetsDistinct | ratt/ratt.py:179-189 | no two planned renames share a target |
| Ratt.CrossGroupTargets | ratt/ratt.py:179-189 | files of different stamps never get the same name |
| Ratt.ExecDryRun | ratt/ratt.py:160-161 | without confirmation nothing is renamed |
| Ratt.ExecRenamesAll | ratt/ratt.py:155-161 | with confirmation, existing sources and absent targets: sources go, targets appear |
| Ratt.DoRename | ratt/ratt.py:155-161 | stops when the target exists; renames only with confirmation |
| Ratt.RenameAccordingToTimeAndDate | ratt/ratt.py:179-189 | for an order listing each key of the dictionary exactly once, the file system after the loop is the plan's effect |
| RenameAccordingDate.NewFileName | ratt/rename_according_date.py:14-29 | the new name starts with the stamp and is at most four characters longer |
| RenameAccordingDate.NewFileNameTail | ratt/rename_according_date.py:27-28 | what follows the stamp is the old name's last four characters, lower-cased |
| RenameAccordingDate.NewFileNameExample | ratt/rename_according_date.py:5 | P7261528.JPG of Wednesday 26 July 2006, 14:32:44, becomes 2006-07-26-wed-14-32-44.jpg |
| RenameAccordingDate.SuffixedAsWritten | ratt/rename_according_date.py:63-64 | numbering fails exactly for a name without a dot |
| RenameAccordingDate.Suffixed | ratt/rename_according_date.py:70-72 | the corrected numbering keeps every character and adds "-" and the counter |
| RenameAccordingDate.CreateNewFileNames | ratt/rename_according_date.py:34-77 | the loop's dictionary is that of the specification fold, or its IndexError |
| RenameAccordingDate.AddFile | ratt/rename_according_date.py:49-75 | one pass of the loop agrees with the specification step |
| RenameAccordingDate.DuplCounts | ratt/rename_according_date.py:53-58 | the duplicate counter of a name is the number of files so far with that name |
| RenameAccordingDate.MoveToFirst | ratt/rename_according_date.py:60-66 | a second file moves the first to the "-01" name and frees the bare name |
| RenameAccordingDate.KthKey | ratt/rename_according_date.py:69-73 | the k-th file with a name, k at least 2, is stored under that name numbered k |
| RenameAccordingDate.SuffixNamesDiffer | ratt/rename_according_date.py:64-71 | different counters give different names |
| RenameAccordingDate.SuffixNameNotBare | ratt/rename_according_date.py:64-71 | a numbered name is never the bare name |
| RenameAccordingDate.AsWrittenDropsSecondDot | ratt/rename_according_date.py:63-64 | as written, a name "S.v.d" is numbered as "S-kk.v": everything after the second dot is lost |
| RenameAccordingDate.AsWrittenLosesFiles | ratt/rename_according_date.py:60-73 | four files of one second named a.v.1, b.v.1, a.v.2, b.v.2 end as two entries: two files are dropped |
| RenameAccordingDate.AsWrittenCrashesWithoutDot | ratt/rename_according_date.py:63-64 | README and OLD_README of one second make the loop fail with IndexError |
| RenameAccordingDate.CorrectedFold | ratt/rename_according_date.py:49-77 | the corrected loop never fails and keeps every file under its own key, and nothing else |
| RenameAccordingDate.NewNamesNoClash | ratt/rename_according_date.py:14-29 | for old names of at least two characters, no numbered new name equals another file's bare new name |
| RenameAccordingDate.CorrectedKeepsEveryFile | ratt/rename_according_date.py:34-77 | corrected, every file is in the dictionary under its own distinct key, and nothing else is |
| RenameAccordingDate.FinalName | ratt/rename_according_date.py:104-108 | an existing new name gets the old name appended |
| RenameAccordingDate.ApplyDryRun | ratt/rename_according_date.py:113-115 | without "-c" nothing changes |
| RenameAccordingDate.ApplyRenamesAll | ratt/rename_according_date.py:99-118 | with "-c", distinct existing old names and absent new names: old names go, new names appear |
| RenameAccordingDate.RenameFiles | ratt/rename_according_date.py:99-118 | the keys are visited sorted, each once, and the file system ends as the specification says |
| Ep.LastArg | other/ep.py:49-60 | no value exactly when no option of the kind was given |
| Ep.LastArgAt | other/ep.py:57-60 | the value is that of the last `-s` (or `-d`) given |
| Ep.GetOptions | other/ep.py:42-68 | the loop's options agree with the specification parse |
| Ep.TracklistExclusive | other/ep.py:62-65 | `-t` with a non-empty `-s` or `-d` is refused; accepted `-t` never has one |
| Ep.Defaults | other/ep.py:134-136 | a space and '_' when neither `-s` nor `-d` is given, otherwise the given values |
| Ep.Entries | other/ep.py:102-113 | one (old, new) pair per name in order |
| Ep.ReplacePatterns | other/ep.py:97-113 | fails (TypeError) exactly when there are names and a missing text; otherwise the pairs |
| Ep.DefaultHasNoSpace | other/ep.py:105-110 | the default new names hold no space |
| Ep.DefaultIdempotent | other/ep.py:105-110 | renaming a default new name again changes nothing |
| Ep.TracklistShape | other/ep.py:109-110 | in track mode the first space becomes '-' and the others '_' |
| Ep.RenameAllAppend | other/ep.py:84-94 | renaming two lists is renaming the first and, if it went through, the second |
| Ep.StopsAtFailure | other/ep.py:90-94 | a rename whose source is missing ends the run with the earlier renames done |
| Ep.NoOpsChangeNothing | other/ep.py:86-87 | pairs with equal names are skipped |
| Ep.RenameEntries | other/ep.py:84-94 | the loop's file system and outcome are those of the specification |
| Ep.Process | other/ep.py:116-144 | the names are sorted, and the renames are those of the default or given texts |
| VfatCharsCheck.InAllRanges | other/vfat_chars_check.py:21-24 | a code is in one of the eight inclusive ranges exactly when it is allowed |
| VfatCharsCheck.BuildAllowedOrdVals | other/vfat_chars_check.py:20-24 | the list holds exactly the allowed codes, strictly increasing |
| VfatCharsCheck.ForbiddenCharacters | other/vfat_chars_check.py:21-22 | `* / : ? \ < >`, control characters and non-ASCII characters are refused |
| VfatCharsCheck.ConformsSnoc | other/vfat_chars_check.py:50-53 | a name conforms when all its characters are allowed |
| VfatCharsCheck.NonConformingSound | other/vfat_chars_check.py:42-56 | every reported path is root joined with a non-conforming name |
| VfatCharsCheck.NonConformingComplete | other/vfat_chars_check.py:42-56 | every non-conforming name is reported |
| VfatCharsCheck.CheckNames | other/vfat_chars_check.py:42-56 | the loop's list is the non-conforming names joined to root, in order |
| VfatCharsCheck.CheckEntry | other/vfat_chars_check.py:70-75 | one walk entry's report: files then directories, only when the entry is checked |
| VfatCharsCheck.CheckVfatCharsInFilenames | other/vfat_chars_check.py:59-80 | the list is the report over the whole walk |
| VfatCharsCheck.ReportSound | other/vfat_chars_check.py:59-80 | every reported path is a non-conforming name of a checked entry |
| VfatCharsCheck.ReportComplete | other/vfat_chars_check.py:59-80 | every non-conforming name of a checked entry is reported |
| VfatCharsCheck.AsWrittenSkipsDirectoryOnlyParents | other/vfat_chars_check.py:70-75 | a directory "a:b" whose parent holds no file is not reported; corrected, it is |
| CreateWebGallery.SubdirPrefix | other/create_web_gallery.py:85-88 | a non-empty subdir gets a '/'; none or empty gives "" |
| CreateWebGallery.Chunks | other/create_web_gallery.py:98-109 | rows of at most `cols` cells, all full but the last |
| CreateWebGallery.ChunksCount | other/create_web_gallery.py:98-114 | there are ceil(n / cols) rows |
| CreateWebGallery.ChunksFlatten | other/create_web_gallery.py:98-109 | the rows hold the cells in order |
| CreateWebGallery.Cells | other/create_web_gallery.py:90-104 | one cell per key, filled from the key and its thumbnail |
| CreateWebGallery.Push | other/create_web_gallery.py:99-109 | adding a cell opens a row when needed and closes it when full |
| CreateWebGallery.AddCell | other/create_web_gallery.py:99-109 | one pass of the loop keeps the text equal to the rows so far |
| CreateWebGallery.Finish | other/create_web_gallery.py:113-114 | a partly filled last row is closed once |
| CreateWebGallery.WriteTable | other/create_web_gallery.py:95-114 | the loop's text is the table of the cells |
| CreateWebGallery.CreateHTMLTable | other/create_web_gallery.py:77-116 | the keys are taken sorted, each once, and the result is their table |
| CreateWebGallery.EmptyTable | other/create_web_gallery.py:83 | no pictures give an empty table |
| CreateWebGallery.ThumbName | other/create_web_gallery.py:307 | the name without its last four characters, then "-thumb.jpg" |
| CreateWebGallery.ThumbNameOfStem | other/create_web_gallery.py:306-307 | a name with a four-character extension gets its stem plus "-thumb.jpg" |
| CreateWebGallery.ThumbPics | other/create_web_gallery.py:303-307 | every picture, and only those, maps to its thumbnail name |
| Tweeter.NoneFoundIff | other/tweeter.py:106-108 | the loop finds nothing exactly when no forbidden piece occurs in the word |
| Tweeter.CheckWord | other/tweeter.py:103-110 | a word is kept exactly when it has two characters or more and holds no forbidden piece |
| Tweeter.ApostropheRejects | other/tweeter.py:72 | a word with an apostrophe is refused |
| Tweeter.LineCandidates | other/tweeter.py:128-129 | the words of a line, each stripped and lower-cased, in order |
| Tweeter.FortuneWords | other/tweeter.py:126-133 | the pool is the set of kept candidates |
| Tweeter.CandidatesClean | other/tweeter.py:128-129 | every candidate is non-empty, lower-case and without white space |
| Tweeter.PoolWordsClean | other/tweeter.py:126-133 | every pool word passes the check and is its own strip and lower case |
| Tweeter.GetMsg | other/tweeter.py:135-141 | the drawn words come from the pool; drawing stops at 130 characters or an empty pool; the message is their text stripped |
| Tweeter.Draw | other/tweeter.py:139-140 | one draw moves one word from the list to the message |
| Tweeter.UsedDistinct | other/tweeter.py:136-140 | from a pool of distinct words no word is drawn twice |
| Tweeter.MessageReadBack | other/tweeter.py:186 | the counter and the text can be read back from "[counter] text." |
| Tweeter.ShortenSpec | other/tweeter.py:187-188 | a message under 140 characters is kept; a longer one is cut before its last space and ends with '.' |
| Tweeter.SentEndsWithStop | other/tweeter.py:186-188 | every message sent ends with '.' |
| Tweeter.SentMessageFits | other/tweeter.py:184-188 | for a drawn text and a counter of at most seven digits, what is sent is under 140 characters |
| Tweeter.CutBeforeLastWord | other/tweeter.py:187-188 | cutting a long message removes its last word |
| Tweeter.Compose | other/tweeter.py:186-188 | one round's message is the framed text, cut when too long |
| Tweeter.PostsSender | other/tweeter.py:171-190 | message k carries counter start + k + 1 |
| Md5Check.TallyLine | other/md5check.py:28-35 | each matching ending's counter goes up by one; the line is printed exactly when it has none |
| Md5Check.ReportCounters | other/md5check.py:37-39 | one summary line per non-zero counter |
| Md5Check.Printer | other/md5_recursive_tester.py:21-39 | the counters count the stripped lines per ending; the other lines are printed in order; the summary follows the counts |
| Md5Check.PrinterLine | other/md5check.py:27-35 | one more line keeps the counters and the printed lines equal to those of the prefix |
| Md5Check.AtMostOneEnding | other/md5check.py:30-33 | no line ends with two of the endings |
| Md5Check.TallyTotal | other/md5check.py:27-35 | every line is counted exactly once or printed |
| Md5Check.PrintedSound | other/md5check.py:34-35 | every printed line is an input line, stripped, with none of the endings |
| Md5Check.PrintedComplete | other/md5check.py:34-35 | every input line with none of the endings is printed |
| Md5Check.FoundEntryRejoins | other/md5check.py:63-69 | for an entry `find` prints, the directory joined with the file name is the entry |
| Md5Check.EntryPlans | other/md5check.py:61-70 | one plan per entry in order, stopping at the first entry without a directory |
| Md5Check.AsWrittenArgs | other/md5check.py:70-77 | the split command has no white space in any argument |
| Md5Check.CorrectedArgs | other/md5check.py:70-77 | the checksum file's name is passed as one argument |
| Md5Check.ArgsAgree | other/md5check.py:70-77 | for a name without white space, the split command is the intended one |
| Md5Check.AsWrittenSplitsName | other/md5_recursive_tester.py:70-77 | a name "a b" is passed as two arguments, unlike the intended command |
| Mp3SortTransfer.Bucket | other/mp3_sort_transfer.py:21-24 | the bucket is one upper-case letter: the album's first letter, or "A" for a non-letter |
| Mp3SortTransfer.BucketIgnoresCase | other/mp3_sort_transfer.py:21 | albums starting with the same letter in either case share the bucket |
| Mp3SortTransfer.DestinationShape | other/mp3_sort_transfer.py:25-29 | an album goes to `<target>/<bucket>/<album>` |
| Mp3SortTransfer.ProcessDirSpec | other/mp3_sort_transfer.py:15-34 | the bucket exists afterwards; an existing destination is skipped; a copy happens exactly when the destination is missing and the source exists |
| Mp3SortTransfer.ProcessDir | other/mp3_sort_transfer.py:15-34 | the file system and outcome are those of the specification |
| Mp3SortTransfer.SubdirsMembers | other/mp3_sort_transfer.py:40-41 | exactly the listed entries that are directories are taken |
| Mp3SortTransfer.SubdirsSorted | other/mp3_sort_transfer.py:40-41 | they are taken in sorted order, each once |
| Mp3SortTransfer.RunOnlyAdds | other/mp3_sort_transfer.py:37-44 | nothing that existed is removed |
| Mp3SortTransfer.RunReachesAll | other/mp3_sort_transfer.py:37-44 | without a failure, every album's destination exists afterwards |
| Mp3SortTransfer.RunStaysFailed | other/mp3_sort_transfer.py:37-44 | after a failed copy, later albums change nothing |
| Mp3SortTransfer.VisitEntry | other/mp3_sort_transfer.py:41-43 | one turn of the loop keeps the file system equal to the specification run |
| Mp3SortTransfer.ProcessBaseDir | other/mp3_sort_transfer.py:37-44 | the directories are taken sorted, each once, and the file system is the run's |
| Gpg.EncryptOutput | other/gpg.py:43 | the output is the input followed by ".gpg" |
| Gpg.DecryptOutput | other/gpg.py:73 | the output is the input without its last four characters, or "" for a shorter name |
| Gpg.IsEncryptedIff | other/gpg.py:111-112 | decryption is chosen exactly for names ending in ".gpg" |
| Gpg.EncryptDecryptRoundTrip | other/gpg.py:43-117 | decrypting an encryption output gives the original name back |
| Gpg.DecryptEncryptRoundTrip | other/gpg.py:73-117 | a name chosen for decryption is the encryption output of its decryption |
| Gpg.MainAction | other/gpg.py:93-117 | no argument prints usage; encryption and decryption run only on an existing input and a missing output |
| Gpg.NeverOverwrites | other/gpg.py:43-46 | the run stops exactly when the output exists |
| Gpg.EncryptThenDecrypt | other/gpg.py:63-90 | encrypting a file and then decrypting the result restores its name |

## Left out

- Parsing the XML with lxml, `Executor`, `Logger` and the subprocesses that run the
  commands (backupper): the model starts from the attributes of each element and stops at
  the command objects.
- The `%` formatting in backupper: only `%(key)s` and `%%` are modelled; any other
  conversion is a model error rather than Python's behaviour.
- `helpers.get_files` globbing, `copyFiles` and option handling of backupper: file lists are
  inputs.
- `os.path.getmtime`, `time.localtime`, `datetime.fromtimestamp` and EXIF reading: the
  local time of each file is an input (a civil date-time). Time zones and daylight saving
  time are not modelled.
- Ratt.NewFileNames: its contract is stated in Ratt.NewFileNamesSpec, NewFileNamesOk and
  NewFileNamesPairs rather than on the function itself.
- RenameAccordingDate.NewFileName: the lower-case tail is stated in
  RenameAccordingDate.NewFileNameTail.
- RenameAccordingDate.AsWrittenLosesFiles: states the new name of each file and the
  resulting dictionary over those names rather than one equation over the whole list.
- RenameAccordingDate.CorrectedKeepsEveryFile: holds for old names of at least two
  characters. With a one-character name, a numbered name can equal another file's new name.
- RenameAccordingDate.NewNamesNoClash: holds for old names of at least two characters,
  for the same reason.
- Ep.RenameEntries, Ep.Process, Mp3SortTransfer.ProcessDir, Mp3SortTransfer.ProcessDirSpec,
  Backupper.ProcessSection: the file system is a flat set of names, so failures that come
  from directory structure are not reproduced. With `ep -r`, renaming a directory before an
  entry below it makes Python's second `os.rename` fail ("Could not rename", exit 1); the
  model renames both names and reports success. An `os.mkdir` under a missing parent (a
  missing mp3 target directory, a backup destination whose parent is absent) raises in
  Python; the model's directory creation always succeeds.
- rename_according_date's rename: an `OSError` from `os.rename` is not caught by
  `except IOError` in Python 2, so a failed rename ends the run.
- The order of dictionary iteration in ratt's `rename_according_to_time_and_date` is an
  input (`order`). In `getCommands`/`process` the order is that of the elements.
- ep's `getFilesAndDirectoriesListRecursively` (`os.walk`): the listing is an input set.
  `getopt` errors and `printUsage` are left out; options arrive already split.
- vfat_chars_check's `os.walk` and `print_help`: the walk is an input list of entries.
  A `KeyboardInterrupt` is not modelled.
- create_web_gallery: image resizing, the HTML page around the table, and the command line.
  `numberOfColumns` is an integer; the Python 2 string comparison `counter <
  numberOfColumns` for a string argument is not modelled.
- tweeter: the `fortune` subprocess, Twitter, `random`, `time.sleep`, signals and
  `multiprocessing`. The random draws are inputs, and the sender ends with its input texts
  instead of running until interrupted. `_checkPreviousPost` is commented out in the
  source and is left out.
- md5check: the `find` subprocess and `md5sum` itself; their outputs are inputs. The order
  in which `printer` prints the counters (dictionary order) is not modelled; the summary is
  a set.
- md5check: `os.chdir` into an empty directory name raises, which ends the loop; other
  `chdir` failures are not modelled.
- mp3_sort_transfer's `process_base_dir_2` and `main`: they repeat `process_base_dir_1`
  over more directories. `shutil.copytree` is modelled as adding the destination name, and
  it fails when the source is missing.
- gpg's `printHelp`, the text of the gpg commands and the subprocess; `main`'s outcome is
  an `Action`.
- `print` output in every script.

## Findings

| source | as written | input that shows it | evidently intended | confidence | as-written member | corrected member |
|---|---|---|---|---|---|---|
| ratt/rename_according_date.py:60-73 | a duplicate's counter is placed by `new.split('.')`, keeping only the first two parts | four files of the same second named a.v.1, b.v.1, a.v.2, b.v.2: the dictionary ends with two entries, and a.v.1 and b.v.1 are never renamed; README and OLD_README of the same second raise IndexError | every file keeps its own entry, with the counter placed before the first dot | not executed | RenameAccordingDate.AsWrittenLosesFiles | RenameAccordingDate.CorrectedKeepsEveryFile |
| other/vfat_chars_check.py:70-75 | names are checked only for directories that hold at least one file | a directory /r holding only the subdirectory "a:b": nothing is reported | the subdirectories of every directory are checked | not executed | VfatCharsCheck.AsWrittenSkipsDirectoryOnlyParents | VfatCharsCheck.ReportComplete |
| other/md5check.py:69-77 | the command text `md5sum -c <name>` is split at white space | the entry ./my sums.md5 makes md5sum check the two files "my" and "sums.md5" | the checksum file's name is one argument | not executed | Md5Check.AsWrittenSplitsName | Md5Check.CorrectedArgs |
