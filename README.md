# Retrieve: latest-backup locator and copier, in Dafny

Retrieve.py looks for the latest backup of eight PDF files, `Nucleo A.pdf`
to `Nucleo I.pdf` (there is no `Nucleo H`). The backups live in an archive
laid out as `Root/YYYY/YYYY-MM-DD/`. A day folder may also hold a
`Mese successivo` ("next month") subfolder. The latest backup found is copied
into a destination folder, and a file already there is never overwritten.

The search (`find_latest_pdf`) runs in three phases:

1. It looks in the day folders of the current month, from today back to the 1st.
2. It looks in the previous month's `Mese successivo` folders, from that month's last day back to its 1st.
3. It looks in the previous month's day folders, over the same range.

In each folder, `check_folder_for_pdf` tries the folder itself first and then
its `Mese successivo` subfolder. The first hit wins. In phase 2 the folder
being checked is already a `Mese successivo` folder, so its own
`Mese successivo` subfolder is probed too (`.../Mese successivo/Mese successivo/<name>`).
The model keeps that as written. It also keeps the phase-2 existence check
separate from the check inside `check_folder_for_pdf`.

Modules:

- `Calendar` — proleptic-Gregorian dates over Python's year range 1..9999.
  - Month lengths with leap years.
  - The day before a date (`timedelta(days=1)`).
  - `get_first_day_of_month` and `get_last_day_of_previous_month`.
  - Ordinal day numbers, which show that each scan loop terminates.
- `DateFormat` — the `%Y` and `%Y-%m-%d` folder names, zero-padded. A parser proves the name determines the date.
- `Paths` — POSIX `os.path.join` and `os.path.basename`.
- `FileSys` — the filesystem as a class with a set of directory paths and a map from file paths to bytes.
  - `os.path.exists`, `os.makedirs` and `shutil.copy2` are its predicate and methods.
- `Locator` — specifies `check_folder_for_pdf` and `find_latest_pdf`.
  - Every probe the three phases make forms one flat schedule, in visiting order.
  - The result is the first hit in that schedule (`FirstHit(Schedule(today))`).
  - `FindLatestPdf` runs the phases as loops that step one day back at a time, and is proved to return exactly that result.
- `Copier` — `copy_file_to_destination`.
  - Its outcome and new state are functions of the state before the call.
  - The method is proved to follow them.
- `Retrieve` — the name list and the per-name loop of `main`.
  - One report per name, in order.
  - Nothing that existed is lost, and the only things added are the destination folder and the copies the reports name.
  - Each report's promise holds of the final filesystem.

Inputs that come from outside the program are parameters:
- the archive root (`ARCHIVE_DIR`);
- the destination folder (`SOURCE_DIR`);
- the clock (`datetime.now()`): each name's search reads it when it starts, so `main` takes one date per name.

## Model

| member | source | states |
|---|---|---|
| Calendar.FirstDayOfMonth | Retrieve.py:9-10 | the result is day 1 of `d`'s year and month; it is a valid date and not after `d` |
| Calendar.FirstDayIsEarliest | Retrieve.py:9-10 | the first day of a month is not after any valid date of that month |
| Calendar.PrevDay | Retrieve.py:14 | `d - timedelta(days=1)` is a valid date before `d`, defined on every valid date except 0001-01-01 |
| Calendar.PrevDayIsImmediate | Retrieve.py:14 | no valid date lies strictly between the previous day and `d` |
| Calendar.PrevDayOrdinal | Retrieve.py:14 | stepping one day back lowers the ordinal day number by exactly one |
| Calendar.LastDayOfPreviousMonth | Retrieve.py:12-14 | the result is valid and before the 1st of `d`'s month; it lies in the previous calendar month; its day is that month's length, leap years included; for a January `d` it is 31 December of the year before |
| Calendar.OrdinalOrder | Retrieve.py:37 | date comparison (`>=` in the loop guards) agrees with the order of ordinal day numbers, both ways, equality included |
| DateFormat.Pad | Retrieve.py:38-39 | a zero-padded field has exactly its width and only decimal digits |
| DateFormat.PadRoundTrip | Retrieve.py:38-39 | reading a padded field back gives the number whenever it fits the width |
| DateFormat.YearName | Retrieve.py:38 | `%Y` gives four digits that read back as the year |
| DateFormat.DateName | Retrieve.py:39 | `%Y-%m-%d` gives ten characters: digits, with dashes at positions 4 and 7 |
| DateFormat.DateNameRoundTrip | Retrieve.py:39 | every valid date's `%Y-%m-%d` name has the `NNNN-NN-NN` shape and parses back to the date |
| DateFormat.DateNameInjective | Retrieve.py:39-40 | distinct dates get distinct day folders |
| Paths.JoinShape | Retrieve.py:18 | the contract of `Paths.Join` (`os.path.join(a, b)`): the result ends with `b`; an absolute `b` replaces `a`; otherwise `a` comes first, followed by a separator exactly when `a` is non-empty and does not already end in one |
| Paths.Basename | Retrieve.py:84 | the base name contains no separator, is a suffix of the path and follows its last separator |
| Paths.BasenameOfJoin | Retrieve.py:84-85 | a plain file name joined onto any folder is that path's base name |
| FileSys.FileSystem.Exists | Retrieve.py:19 | `os.path.exists` holds of directories and regular files alike; in a valid filesystem an existing path is exactly one of the two |
| FileSys.FileSystem.MakeDirs | Retrieve.py:82 | the folder becomes a directory and nothing else changes |
| FileSys.FileSystem.Copy2 | Retrieve.py:90 | succeeds exactly when the source is a regular file; on success the target holds the source's bytes and nothing else changes; on failure nothing changes |
| Locator.DayFolderName | Retrieve.py:38-40 | a day folder `root/YYYY/YYYY-MM-DD` has the date's name as its base name, and that name reads back as the date |
| Locator.CheckFolderForPdf | Retrieve.py:16-29 | the result exists. It is `folder/name` whenever that exists (the main folder wins). Otherwise it is `folder/Mese successivo/name`. It is None exactly when neither the file nor the subfolder-with-file exists |
| Locator.Probe | Retrieve.py:38-72 | a probe only ever reports an existing path |
| Locator.FirstHit | Retrieve.py:31-78 | the first hit of a schedule is an existing path |
| Locator.Schedule | Retrieve.py:35-76 | every step of the schedule is on a valid date |
| Locator.Phase1Range | Retrieve.py:36-46 | phase 1 visits exactly the days of today's month up to today, in strictly descending order; on the 1st of the month it visits only today |
| Locator.PrevMonthRange | Retrieve.py:48-76 | phases 2 and 3 visit exactly the previous calendar month, from its last day down to its first, in strictly descending order |
| Locator.ScheduleAt | Retrieve.py:35-76 | the schedule has `today.day + 2 * n` probes, where `n` is the previous month's length. Position by position, they are the current month's day folders, then the previous month's `Mese successivo` folders, then its day folders, each newest first |
| Locator.FirstHitCharacterization | Retrieve.py:31-78 | the result is None exactly when every probe misses; otherwise it is what some probe found, and every earlier probe missed |
| Locator.FirstHitBasename | Retrieve.py:18-25 | a found path's base name is the file name looked for |
| Locator.LocateByPhases | Retrieve.py:35-78 | the result is phase 1's hit if any, else phase 2's hit if any, else phase 3's result |
| Locator.OverflowPhasePreemptsMainFolders | Retrieve.py:53-64 | when phase 1 misses and some previous-month `Mese successivo` probe hits, phase 2's hit is returned and phase 3's folders are never consulted |
| Locator.ScanDayFolders | Retrieve.py:36-46 | the loop of phases 1 and 3 returns the first hit among the day folders from the given day back to the 1st of its month |
| Locator.ScanOverflowFolders | Retrieve.py:53-63 | the loop of phase 2 returns the first hit among the `Mese successivo` probes from the given day back to the 1st of its month |
| Locator.FindLatestPdf | Retrieve.py:31-78 | returns the first hit of the three-phase schedule, which exists; it reads the filesystem and changes nothing |
| Copier.DestinationPath | Retrieve.py:84-85 | the destination path keeps the source's base name |
| Copier.DirsAfterCopy | Retrieve.py:81-82 | after `makedirs` the destination folder exists; at most that one folder was added, and nothing is added when the folder already existed |
| Copier.CopyResult | Retrieve.py:84-91 | "already present" exactly when the destination path exists once the folder has been made. A failure exactly when it does not exist and the source is not a regular file or the folder is a regular file. Otherwise the copy lands on the destination path, which did not exist before |
| Copier.FilesAfterCopy | Retrieve.py:87-91 | every file that existed before keeps its bytes, so the copy never overwrites; the only file added is the copied one, and it holds the source's bytes |
| Copier.CopyIdempotent | Retrieve.py:80-91 | a second identical call reports "already present" after a copy that succeeded or found the file, fails again after one that failed, and changes nothing |
| Copier.CopyFileToDestination | Retrieve.py:80-91 | the method's outcome, directories and files are exactly those the copy functions give for the state before the call |
| Retrieve.PdfNamesFacts | Retrieve.py:96 | the eight names are `Nucleo A.pdf` .. `Nucleo I.pdf`, pairwise distinct plain file names, and `Nucleo H.pdf` is not among them |
| Retrieve.DeliveredKept | Retrieve.py:98-111 | what a report promises about the filesystem survives later copies |
| Retrieve.CopiedPathsExactly | Retrieve.py:102-105 | the copied paths of a run of reports are exactly the paths some report says it copied to |
| Retrieve.RetrieveOne | Retrieve.py:99-111 | reports "not found" exactly when the locator finds nothing, leaving the filesystem alone; otherwise it reports the found path with the copy's outcome and takes the copy's new state. Everything is kept, at most the destination folder is added, and at most the file the report says it copied |
| Retrieve.RetrieveEach | Retrieve.py:98-111 | one report per name, in order, each name searched on its own date. Everything that existed is kept; the only folder that may be added is the destination, and the only files that may be added are the reported copies. Each copied file sits at `destination/<name>` with the found backup's bytes, and each "already present" name exists there |
| Retrieve.RetrieveAll | Retrieve.py:93-111 | the same over the eight names: one report per name in order; everything kept; no folder but the destination added; every new file is one some report says it copied; every report's promise holds at the end |

## Left out

- Reading `ARCHIVE_DIR` and `SOURCE_DIR` from the environment and `.env` (`load_dotenv`, `os.getenv`): they are parameters.
- The clock (`datetime.now()`): the date each name's search reads is a parameter, one per name. The time of day is left out because the loop comparisons carry it unchanged, so they reduce to date order.
- Every `print` in `main`: the messages are the `Report` values.
- `shutil.copy2`'s metadata and timestamps: a copy moves the bytes only.
- `os.makedirs` creating missing parent directories, and its own failures: making the folder only adds that one path.
- Parent folders: the filesystem is a flat set of folder paths and a map of file paths, so a file or folder may exist while its parent folder does not. That is why the existence checks on a `Mese successivo` folder (Retrieve.py:24 and :58) can change a probe's result in the model, although on a real filesystem the file check alone would decide it.
- OS path semantics: paths are compared as strings, with no normalisation, symlinks, case folding or trailing-separator equivalence. A path under a regular file is not treated as failing `os.path.exists`.
- Exceptions other than `copy2` failing on a source that is not a regular file, or on a destination folder that is a regular file. Those two are the `CopyFailed` outcome, which `main` catches and reports.
- Locator.FindLatestPdf: requires a date from 0001-03-01 on. On earlier dates the day-by-day walk steps before 0001-01-01, where Python raises OverflowError. The model excludes those dates rather than modelling the exception, even when a hit would come first.
- Locator.FindLatestPdf: the three loops are written as two loop methods, one for day folders (phases 1 and 3) and one for `Mese successivo` folders (phase 2), called in the source's order.
- Retrieve.RetrieveAll, Retrieve.RetrieveEach: a report is not tied to the locator's result in these contracts. A "not found" report, and the found path of any other report, come from a search on the filesystem as the earlier copies left it. `RetrieveOne` states that relation step by step.
- DateFormat.YearName, DateFormat.DateName: years before 1000 are always zero-padded to four digits. Python on glibc writes such years unpadded, while other platforms pad them, and the model follows the padded form.
