# Incremental backup with a hash ledger, in Dafny

This project models the backup logic of `backup_gui.py`.

A backup run (`create_backup`) works in these steps:

1. It makes a staging folder `backup_<timestamp>` in the backup directory.
2. It loads the hash ledger `file_hashes.txt`, with one line per file: the path, a pipe (`|`) and the hash.
3. It walks the source tree. For every file it records the file's current hash, and it copies the file into the staging folder when the ledger has no entry for the file's path or records a different hash.
4. If nothing was copied, it removes the staging folder and reports that the backup was skipped.
5. Otherwise it does four things:
   - rewrites the ledger with the hashes of this walk;
   - zips the staging folder into `backup_<timestamp>.zip`;
   - removes the staging folder;
   - runs retention (`manage_backups`).

Retention lists the `backup_*.zip` archives and sorts them newest first by modification time. It then deletes from the oldest end until at most `MAX_BACKUPS` remain.

The modules follow these parts:

- `Results`: `Option` and `Result`.
- `Dict`: a Python dict with string keys, kept as a sequence of entries in insertion order.
  - `ToMap` is what `dict(pairs)` builds.
  - `Put` is `d[k] = v`.
- `Ledger`: the ledger text format. It covers universal-newline reading, line splitting, `str.strip()` with Python's whitespace set, the split at the first `|`, and the line-by-line save.
- `Snapshot`: the walk loop over the source files, proved against the spec functions `ScanLedger` (the new ledger) and `Staged` (the staging folder).
- `Retention`: the glob test, and the newest-first sort as a stable insertion sort.
- `Backup`: the backup directory as a class `BackupDirectory`.
  - Its state is one field `entries`, a map from top-level names to folders or files.
  - `CreateBackup` is proved against `PlannedRun`, which gives the outcome and directory state up to retention.
  - `ManageBackups` is proved against the predicate `Pruned`.

Several things become parameters of a run:

- the hash function (MD5 in the source);
- the walk, as the sequence of files in visiting order, each with its relative path and bytes;
- the formatted timestamp;
- the clock reading `now`, which becomes the modification time of the files the run writes;
- the cap `maxBackups` (the source default, 5, is `DefaultMaxBackups`).

## Model

| member | source | states |
|---|---|---|
| Dict.ToMap | backup_gui.py:46 | `dict(pairs)` has exactly the keys that occur in the pairs |
| Dict.ToMapLastWins | backup_gui.py:46 | when a key occurs in several pairs, `dict(pairs)` binds it to the value of the last one |
| Dict.Put | backup_gui.py:63 | after `d[k] = v` the keys are the old keys plus `k`; a new key is appended at the end of the insertion order |
| Dict.PutInPlace | backup_gui.py:63 | `d[k] = v` on a key already present keeps its position and replaces only its value |
| Dict.PutKeepsKeysUnique | backup_gui.py:63 | `d[k] = v` never creates a second entry for a key |
| Dict.PutUpdates | backup_gui.py:63 | the mapping after `d[k] = v` is the old mapping with `k` bound to `v` |
| Ledger.StripTrims | backup_gui.py:46 | `str.strip()` returns the slice of the line between its leading and its trailing run of whitespace: everything cut is whitespace, and the result neither starts nor ends with whitespace |
| Ledger.LinesSplitText | backup_gui.py:45-46 | iterating over the file gives lines that join back to the whole text; no line is empty, a line break can only be a line's last character, and every line but the last ends with one |
| Ledger.TranslateNewlines | backup_gui.py:45 | text-mode reading leaves no `\r`, and leaves text without `\r` unchanged |
| Ledger.SplitAtFirst | backup_gui.py:46 | `split(sep, 1)` at the pipe gives one part, the whole line, when the line has no pipe; otherwise two parts, the first without a pipe, that rejoin around the pipe to the line |
| Ledger.ParseLineNone | backup_gui.py:46 | a line yields no pair exactly when it has no pipe after stripping |
| Ledger.ParseLineOf | backup_gui.py:46 | the line saved for a safe entry parses back to that entry |
| Ledger.ParseLinesSucceeds | backup_gui.py:46 | the lines yield pairs exactly when every line has a pipe; then there is one pair per line, in order |
| Ledger.ParseLinesFails | backup_gui.py:46 | a failed parse names the first line without a pipe; every line before it parses |
| Ledger.LoadLedger | backup_gui.py:44-48 | a missing ledger loads as the empty mapping |
| Ledger.LoadFailsOnLineWithoutBar | backup_gui.py:46 | the load fails if and only if some stripped line lacks a pipe, and the error names the first such line |
| Ledger.LoadLaterLineWins | backup_gui.py:46 | in a ledger that loads, a path is bound to the hash on its last line |
| Ledger.SaveLedger | backup_gui.py:74-76 | the loop writes, in insertion order, one line per entry (path, pipe, hash, line break) and nothing else |
| Ledger.HexDigestIsSafe | backup_gui.py:28-34 | a hex digest holds no line break, no pipe and no trailing whitespace, so it survives a save and a load |
| Ledger.RoundTrip | backup_gui.py:74-76 | loading the saved text gives back exactly the mapping the entries denote. This holds when no path holds a pipe, a line break or leading whitespace, and no hash holds a line break or trailing whitespace |
| Ledger.PipeInPathSplitsEarly | backup_gui.py:46 | a path `a` + pipe + `b` loads back as key `a`, with `b` + pipe + hash as its value; the path itself is then not in the loaded ledger |
| Ledger.LineBreakInPathFailsLoad | backup_gui.py:46 | a ledger saved with only one entry, whose path holds a line break with no pipe before it, fails to load on line 0 |
| Ledger.LeadingSpaceIsDropped | backup_gui.py:46 | a path with leading whitespace loads back without it, under a different key |
| Snapshot.ScanSource | backup_gui.py:50-70 | the walk loop returns three things: the new ledger, the staging folder with every copied file, and `changes`. `changes` is true if and only if some visited file is copied, so an empty walk gives false |
| Snapshot.ScanLedgerKeys | backup_gui.py:50-63 | the new ledger has each visited path once and no other path, so unchanged files keep an entry and vanished files drop out |
| Snapshot.ScanLedgerLastVisitWins | backup_gui.py:63 | the new ledger binds every visited path to the current hash of its last visit |
| Snapshot.ScanLedgerInWalkOrder | backup_gui.py:63 | for a walk that visits each path once, the new ledger lists the files in walk order with their current hashes |
| Snapshot.StagedPaths | backup_gui.py:65-66 | a path is in the staging folder afterwards exactly when it was already there or some visit of it was copied. A visit is copied when its path is missing from the ledger or recorded with another hash |
| Snapshot.StagedHoldsLastCopy | backup_gui.py:65-66 | a copied file holds the content of its last copied visit |
| Snapshot.StagedKeepsUncopied | backup_gui.py:65-70 | a skipped file leaves the staging folder as it was for its path |
| Snapshot.SavedLedgerReloads | backup_gui.py:74-76 | the saved new ledger reloads to the visited paths bound to their hashes, and against it no file of the same walk is copied. This holds when each path is visited once and no path holds a pipe, a `\n` or `\r`, or leading whitespace |
| Retention.ArchiveNameMatches | backup_gui.py:79 | every archive name `backup_<ts>.zip` matches the glob `backup_*.zip` |
| Retention.LedgerNameIsNoArchive | backup_gui.py:43 | `file_hashes.txt` does not match the glob |
| Retention.Insert | backup_gui.py:102-106 | inserting into a newest-first list keeps it newest first and adds exactly the new archive |
| Retention.SortNewestFirst | backup_gui.py:102-106 | the sort returns a newest-first permutation of the archives |
| Retention.NewestFirstOrdered | backup_gui.py:102-106 | in a newest-first list no archive is newer than any archive before it |
| Retention.NewestFirstSplit | backup_gui.py:107-108 | after a cut, everything in the tail is no newer than anything in the head |
| Backup.JoinPath | backup_gui.py:39-43 | `os.path.join(dir, name)` (also used for the archive path at line 79): an absolute name replaces the directory; otherwise the result is the directory, a `/` unless the directory is empty or already ends in one, and the name |
| Backup.ReadLedger | backup_gui.py:44-48 | a missing ledger reads as the empty mapping; a folder or an archive at the ledger's name cannot be opened; a text ledger reads as it loads, and a load error keeps its line number |
| Backup.ReadLedgerNamesBadLine | backup_gui.py:44-48 | reading a text ledger fails exactly when some stripped line has no pipe, and the error names the first such line |
| Backup.RunNames | backup_gui.py:39-43 | the staging, ledger and archive names differ pairwise; of them only the archive matches `backup_*.zip` |
| Backup.SortedListing | backup_gui.py:102-106 | sorting a listing of the archives gives a listing again: each archive once, with its recorded time |
| Backup.PrunedTail | backup_gui.py:107-110 | deleting every archive after the first `min(count, cap)` of the sorted list satisfies `Pruned` |
| Backup.PrunedOldest | backup_gui.py:102-110 | every archive in the deleted tail is no newer than every archive that is kept |
| Backup.PrunedWithinCap | backup_gui.py:107 | retention with no more archives than the cap deletes nothing |
| Backup.PruneTwiceIsNoOp | backup_gui.py:100-110 | a second retention with the same non-negative cap changes nothing |
| Backup.SecondRunCopiesNothing | backup_gui.py:44-65 | after a change run has saved its ledger and retention has run, the same files read the ledger back and none is copied. This holds when each path is visited once and no path holds a pipe, a `\n` or `\r`, or leading whitespace |
| Backup.ChangeRunEffects | backup_gui.py:72-92 | a run that reaches retention has done four things and changed nothing else. It has rewritten the ledger with the new hashes, added exactly one archive holding the staging folder's files at their relative paths, and removed the staging folder |
| Backup.CommittedEffects | backup_gui.py:74-89 | the change branch touches only the ledger, the archive and the staging folder |
| Backup.NoChangeRunEffects | backup_gui.py:94-98 | a run returns the skip message exactly when the staging name is free, the ledger reads and no visited file is copied; it then leaves the directory as it was without the staging folder |
| Backup.RerunFindsNoChanges | backup_gui.py:94-98 | a second run over the same files after a change run finds no change, writes nothing and only removes its staging folder. This holds when each path is visited once and no path holds a pipe, a `\n` or `\r`, or leading whitespace |
| Backup.BackupDirectory.MakeStaging | backup_gui.py:39-40 | `makedirs(exist_ok=True)` fails on a file at the staging name, keeps a folder already there, and otherwise creates an empty one |
| Backup.BackupDirectory.CreateBackup | backup_gui.py:36-98 | the run ends as `PlannedRun` says. It stops with the planned result and state: the makedirs error, the ledger error, the skip message, or the archive error. Otherwise it leaves the planned state pruned to the cap and returns the completion message with the archive path |
| Backup.BackupDirectory.CopyChanges | backup_gui.py:50-98 | after the ledger is loaded, the walk and the branch on `changes` end as `PlannedWalk` says |
| Backup.BackupDirectory.ArchiveChanges | backup_gui.py:72-92 | the change branch leaves the new ledger, the archive and no staging folder, and then the pruned directory. If a folder holds the archive name, it stops with only the ledger rewritten |
| Backup.BackupDirectory.WriteArchive | backup_gui.py:79-89 | the archive gets the staging folder's files under their relative paths, and the folder is removed; a folder at the archive name makes it fail without change |
| Backup.BackupDirectory.ListArchives | backup_gui.py:102-103 | the glob lists every archive of the directory once, with its modification time |
| Backup.BackupDirectory.ManageBackups | backup_gui.py:100-110 | retention leaves `Pruned(before, after, cap)`: only archives are deleted, nothing is rewritten, `min(count, cap)` archives remain, and no deleted archive is newer than a kept one. A negative cap deletes every archive and then fails popping the empty list |
| Backup.BackupDirectory.DeleteOldest | backup_gui.py:107-110 | the loop deletes exactly the archives after the first `min(count, cap)` of the list and reports how many it kept |

## Left out

- The Tk front-end `BackupApp` (backup_gui.py:112-187) is not modelled. It covers the directory pickers, the status label and the message boxes. Its checks that the two directories exist (backup_gui.py:166-172) are not modelled either: the model's backup directory always exists.
- Loading `.env`, the environment-derived settings and logging are not modelled. `MAX_BACKUPS` becomes the parameter `maxBackups`, with the default kept as `DefaultMaxBackups`.
- MD5 itself is a parameter `hash` whose results are 32 lower-case hexadecimal digits.
- The file system is not modelled byte for byte:
  - the walk is the sequence of files in visiting order, so its order and symlink handling are inputs;
  - metadata that `copy2` preserves is dropped;
  - a folder's files are a flat map from relative path to content, so the intermediate directories `makedirs` creates and empty directories are not represented;
  - read and write errors other than the ones named in `BackupError` are not modelled.
- The ZIP container and DEFLATE compression are left out: an archive is the map from member name to content.
- The walk is an input that does not depend on the backup directory, so the backup directory is taken to lie outside the source tree. If it lay inside, `os.walk` (backup_gui.py:53) would also visit the staging folder, the ledger and the archives, and a second run would never skip.
- The ledger text is the text as written on POSIX. On Windows the text-mode write at backup_gui.py:76 stores `\r\n` line ends; reading translates them back, so only the stored bytes differ.
- `datetime.now()` is replaced by two inputs: the formatted timestamp `ts` and the clock reading `now`.
- Backup.BackupDirectory.ManageBackups: lists and prunes only files that match `backup_*.zip`. The source's glob also yields a folder with such a name. That folder is sorted with the archives by its modification time and takes one of the `MAX_BACKUPS` places, so the source can delete one more archive file than `Pruned` allows. When the folder falls in the deleted tail, the source deletes the older files after it and then fails unlinking the folder, where the model deletes no folder and succeeds.
- Backup.BackupDirectory.ListArchives: lists only files, as above. A folder in the model has no modification time.
- Backup.JoinPath: models the POSIX `os.path.join`, with `/` as separator. On Windows the source's join uses `\`, so the archive path in the completion message would differ.
- Backup.ReadLedger: a ledger that is not text (an archive stored under the ledger's name) is treated as unreadable. Decoding errors of text are not modelled.
- Retention.SortNewestFirst: the sort is written as a stable insertion sort, like `sorted`. Its contract states ordering and permutation, not stability.
- Snapshot.ScanSource: the staging folder's copies are kept in a local map. That map is written back into the directory once the walk ends, not file by file.
