/**
 * A backup run against the backup directory, and the retention of its archives.
 *
 * The backup directory is an object whose entries (file and folder names at its
 * top level) the run creates, rewrites and deletes. It holds the ledger
 * `file_hashes.txt`, the archives `backup_<timestamp>.zip` and, while a run is
 * under way, the staging folder `backup_<timestamp>`. The clock is given to a run
 * twice: as the formatted timestamp and as the modification time `now` that the
 * files it writes receive.
 */
module Backup {
  import opened Results
  import opened Dict
  import opened Ledger
  import opened Snapshot
  import opened Retention

  /** What a file holds: ledger text, or the members of a ZIP archive by name. */
  datatype Data = Text(text: string) | Zip(members: map<string, Content>)

  /** A top-level entry of the backup directory: a folder with its files by relative path, or a file. */
  datatype Item = Folder(files: map<string, Content>) | File(data: Data, mtime: int)

  /** The exceptions a run lets escape. */
  datatype BackupError =
    | StagingIsFile            // os.makedirs finds a file where the staging folder goes
    | LedgerUnreadable         // the ledger is a folder, or not text
    | MalformedLedger(line: nat) // dict() is given a line without `|`
    | ArchiveSlotIsFolder      // the archive name is taken by a folder
    | PopFromEmptyList         // retention with a negative cap pops an empty list

  const LedgerName := "file_hashes.txt"
  const SkippedMessage := "No changes detected. Backup skipped."
  const CompletedMessage := "Backup completed successfully. Archive saved at: "
  const DefaultMaxBackups := 5

  /** A timestamp as `strftime('%Y%m%d_%H%M%S')` formats it: eight digits, `_`, six digits. */
  predicate IsTimestamp(ts: string)
  {
    |ts| == 15 && ts[8] == '_' && forall i :: 0 <= i < 15 && i != 8 ==> '0' <= ts[i] <= '9'
  }

  function StagingName(ts: string): string
  {
    "backup_" + ts
  }

  function ArchiveName(ts: string): string
  {
    "backup_" + ts + ".zip"
  }

  /**
   * `os.path.join(dir, name)` with `/` as separator: an absolute `name` replaces
   * `dir`; otherwise `name` follows `dir`, after a `/` unless `dir` is empty or
   * already ends in one.
   */
  function JoinPath(dir: string, name: string): (r: string)
    ensures name != [] && name[0] == '/' ==> r == name
    ensures (name == [] || name[0] != '/') ==>
              && |r| == |dir| + |name| + (if dir == [] || dir[|dir| - 1] == '/' then 0 else 1)
              && r[..|dir|] == dir && r[|r| - |name|..] == name
              && (dir != [] ==> r[|r| - |name| - 1] == '/')
  {
    if name != [] && name[0] == '/' then name
    else if dir == [] || dir[|dir| - 1] == '/' then dir + name
    else dir + "/" + name
  }

  /**
   * The three names a run writes are pairwise different; of them only the archive
   * matches `backup_*.zip`, so neither the ledger nor the staging folder is ever a
   * candidate for retention.
   */
  lemma RunNames(ts: string)
    requires IsTimestamp(ts)
    ensures IsArchiveName(ArchiveName(ts))
    ensures !IsArchiveName(StagingName(ts)) && !IsArchiveName(LedgerName)
    ensures StagingName(ts) != LedgerName && ArchiveName(ts) != LedgerName && StagingName(ts) != ArchiveName(ts)
  {
    ArchiveNameMatches(ts);
    LedgerNameIsNoArchive();
    var s := StagingName(ts);
    assert s[|s| - 1] == ts[14];
    assert s[|s| - 4..][3] == s[|s| - 1];
    assert |ArchiveName(ts)| != |StagingName(ts)|;
    assert s[0] != LedgerName[0];
    assert ArchiveName(ts)[0] != LedgerName[0];
  }

  /** The archives retention sees: files whose name matches `backup_*.zip`. */
  function Archives(es: map<string, Item>): set<string>
  {
    set n | n in es && IsArchiveName(n) && es[n].File?
  }

  /**
   * The effect of retention with cap `max`: only archives are deleted, nothing is
   * rewritten, `min(count, max)` archives remain (none for a negative cap), and no
   * deleted archive is newer than a remaining one.
   */
  predicate Pruned(before: map<string, Item>, after: map<string, Item>, max: int)
  {
    && after.Keys <= before.Keys
    && (forall n :: n in after ==> after[n] == before[n])
    && (forall n :: n in before && n !in Archives(before) ==> n in after)
    && |Archives(after)| == (if max < 0 then 0 else if |Archives(before)| <= max then |Archives(before)| else max)
    && (forall a, b :: a in Archives(after) && b in Archives(before) && b !in after ==>
          before[b].mtime <= before[a].mtime)
  }

  /** Retention within the cap deletes nothing. */
  lemma PrunedWithinCap(before: map<string, Item>, after: map<string, Item>, max: int)
    requires Pruned(before, after, max) && |Archives(before)| <= max
    ensures after == before
  {
    assert Archives(after) <= Archives(before);
    assert Archives(after) == Archives(before) by {
      var gone := Archives(before) - Archives(after);
      assert |Archives(before)| == |Archives(after)| + |gone|;
    }
    assert after.Keys == before.Keys;
  }

  /** Running retention a second time with the same cap changes nothing. */
  lemma PruneTwiceIsNoOp(e0: map<string, Item>, e1: map<string, Item>, e2: map<string, Item>, max: int)
    requires max >= 0 && Pruned(e0, e1, max) && Pruned(e1, e2, max)
    ensures e2 == e1
  {
    PrunedWithinCap(e1, e2, max);
  }

  /** A listing of the archives of `es`: each archive once, with its modification time. */
  predicate Listing(es: map<string, Item>, refs: seq<ArchiveRef>)
  {
    && DistinctNames(refs)
    && Names(refs) == Archives(es)
    && TimesOf(es, refs)
  }

  /** Every listed archive is a file of `es`, listed with the modification time `es` records. */
  predicate TimesOf(es: map<string, Item>, refs: seq<ArchiveRef>)
  {
    forall i :: 0 <= i < |refs| ==> refs[i].name in es && es[refs[i].name].File? && refs[i].mtime == es[refs[i].name].mtime
  }

  /** Listing one more archive, not listed yet, with its recorded time keeps a partial listing. */
  lemma ListOneMore(es: map<string, Item>, refs: seq<ArchiveRef>, n: string)
    requires DistinctNames(refs) && TimesOf(es, refs)
    requires n in es && es[n].File? && n !in Names(refs)
    ensures var more := refs + [ArchiveRef(n, es[n].mtime)];
            && DistinctNames(more) && TimesOf(es, more) && Names(more) == Names(refs) + {n}
  {
    var more := refs + [ArchiveRef(n, es[n].mtime)];
    NamesSnoc(refs, ArchiveRef(n, es[n].mtime));
    forall i | 0 <= i < |refs| ensures more[i] == refs[i] && refs[i].name != n {
      assert refs[i].name in Names(refs);
    }
  }

  /** Sorting a listing newest first gives a listing. */
  lemma SortedListing(es: map<string, Item>, refs: seq<ArchiveRef>)
    requires Listing(es, refs)
    ensures Listing(es, SortNewestFirst(refs))
  {
    var sorted := SortNewestFirst(refs);
    PermutationSameNames(refs, sorted);
    assert Distinct(refs);
    PermutationKeepsDistinct(refs, sorted);
    forall i | 0 <= i < |sorted|
      ensures sorted[i].name in es && es[sorted[i].name].File? && sorted[i].mtime == es[sorted[i].name].mtime
    {
      assert sorted[i] in refs;
      var j :| 0 <= j < |refs| && refs[j] == sorted[i];
    }
    TimesFromDirectory(es, sorted);
  }

  /** Archives listed with the times the directory records differ in name whenever they differ at all. */
  lemma TimesFromDirectory(es: map<string, Item>, s: seq<ArchiveRef>)
    requires Distinct(s)
    requires TimesOf(es, s)
    ensures DistinctNames(s)
  {
  }

  /** Deleting names from the directory deletes just those from its archives. */
  lemma ArchivesWithout(es: map<string, Item>, gone: set<string>)
    ensures Archives(es - gone) == Archives(es) - gone
  {
  }

  /** Deleting names one at a time deletes all of them. */
  lemma DeleteOneMore(es: map<string, Item>, gone: set<string>, n: string)
    ensures es - gone - {n} == es - (gone + {n})
  {
  }

  /**
   * Deleting everything after the first `k` entries of a newest-first listing, for
   * the `k` the cap allows, is retention.
   */
  lemma PrunedTail(before: map<string, Item>, sorted: seq<ArchiveRef>, k: nat, max: int)
    requires Listing(before, sorted) && NewestFirst(sorted)
    requires k == (if max < 0 then 0 else if |sorted| <= max then |sorted| else max)
    ensures Pruned(before, before - Names(sorted[k..]), max)
  {
    var after := before - Names(sorted[k..]);
    assert Archives(after) == Names(sorted[..k]) && |Archives(after)| == k by {
      ArchivesWithout(before, Names(sorted[k..]));
      PrefixNames(sorted, k);
      DistinctNamesCount(sorted[..k]);
    }
    assert |Archives(before)| == |sorted| by {
      DistinctNamesCount(sorted);
    }
    assert Names(sorted[k..]) <= Archives(before) by {
      forall n | n in Names(sorted[k..]) ensures n in Names(sorted) {
        var j :| 0 <= j < |sorted| - k && sorted[k..][j].name == n;
        assert sorted[k + j].name == n;
      }
    }
    PrunedOldest(before, sorted, k);
  }

  /** What the tail of a newest-first listing holds is no newer than what its head holds. */
  lemma PrunedOldest(before: map<string, Item>, sorted: seq<ArchiveRef>, k: nat)
    requires Listing(before, sorted) && NewestFirst(sorted) && k <= |sorted|
    ensures forall a, b :: a in Names(sorted[..k]) && b in Names(sorted[k..]) ==> before[b].mtime <= before[a].mtime
  {
    NewestFirstSplit(sorted, k);
    forall a, b | a in Names(sorted[..k]) && b in Names(sorted[k..])
      ensures before[b].mtime <= before[a].mtime
    {
      var i :| 0 <= i < k && sorted[..k][i].name == a;
      var j :| 0 <= j < |sorted| - k && sorted[k..][j].name == b;
      assert sorted[i] == sorted[..k][i] && sorted[k + j] == sorted[k..][j];
    }
  }

  /** A ledger file written by a change run reads back as the new ledger's mapping. */
  function LedgerFile(newHashes: seq<Entry>, now: int): Item
  {
    File(Text(Serialize(newHashes)), now)
  }

  /** `open(hash_file)` and the load: a missing ledger is empty; a folder or non-text file cannot be read. */
  function ReadLedger(es: map<string, Item>): (r: Result<map<string, string>, BackupError>)
    ensures LedgerName !in es ==> r == Success(map[])
    ensures LedgerName in es && (es[LedgerName].Folder? || es[LedgerName].data.Zip?) ==> r == Failure(LedgerUnreadable)
    ensures LedgerName in es && es[LedgerName].File? && es[LedgerName].data.Text? ==>
              var loaded := LoadLedger(Some(es[LedgerName].data.text));
              && (r.Success? <==> loaded.Success?)
              && (r.Success? ==> r.value == loaded.value)
              && (r.Failure? ==> r.error == MalformedLedger(loaded.error.index))
  {
    if LedgerName !in es then Success(map[])
    else
      match es[LedgerName]
      case Folder(_) => Failure(LedgerUnreadable)
      case File(Zip(_), _) => Failure(LedgerUnreadable)
      case File(Text(text), _) =>
        match LoadLedger(Some(text))
        case Failure(MalformedLine(i)) => Failure(MalformedLedger(i))
        case Success(m) => Success(m)
  }

  /**
   * After a change run has written the new ledger and retention has run, a second
   * run over the same source files (each path once, none of them holding `|`, a
   * line break or leading whitespace) reads the ledger back and copies nothing.
   */
  lemma {:induction false} SecondRunCopiesNothing(e1: map<string, Item>, e2: map<string, Item>, walk: seq<SourceFile>,
                               hash: Content -> HexDigest, now: int, max: int)
    requires LedgerName in e1 && e1[LedgerName] == LedgerFile(ScanLedger(walk, hash), now)
    requires Pruned(e1, e2, max)
    requires DistinctPaths(walk) && forall i :: 0 <= i < |walk| ==> SafeKey(walk[i].path)
    ensures ReadLedger(e2).Success?
    ensures forall i :: 0 <= i < |walk| ==> !Copied(walk, ReadLedger(e2).value, hash, i)
  {
    LedgerNameIsNoArchive();
    assert LedgerName !in Archives(e1);
    assert e2[LedgerName] == e1[LedgerName];
    SavedLedgerReloads(walk, hash);
  }

  /** Whether a folder can be made at the staging name: it is free or already a folder (`exist_ok=True`). */
  predicate StagingBlocked(es: map<string, Item>, ts: string)
  {
    StagingName(ts) in es && es[StagingName(ts)].File?
  }

  /** The files already in the staging folder when the run starts. */
  function StagingFiles(es: map<string, Item>, ts: string): map<string, Content>
  {
    if StagingName(ts) in es && es[StagingName(ts)].Folder? then es[StagingName(ts)].files else map[]
  }

  /** The backup directory once the staging folder exists. */
  function WithStaging(es: map<string, Item>, ts: string): map<string, Item>
  {
    es[StagingName(ts) := Folder(StagingFiles(es, ts))]
  }

  predicate ArchiveSlotTaken(es: map<string, Item>, ts: string)
  {
    ArchiveName(ts) in es && es[ArchiveName(ts)].Folder?
  }

  /** The backup directory at the end of the walk: the staging folder holds the copied files. */
  function Scanned(es: map<string, Item>, walk: seq<SourceFile>, existing: map<string, string>,
                   hash: Content -> HexDigest, ts: string): map<string, Item>
    requires StagingName(ts) in es && es[StagingName(ts)].Folder?
  {
    es[StagingName(ts) := Folder(Staged(walk, existing, hash, es[StagingName(ts)].files))]
  }

  /**
   * The backup directory after the change branch, before retention: the ledger
   * rewritten, the staging folder zipped into the archive and then removed.
   */
  function Committed(es: map<string, Item>, newHashes: seq<Entry>, ts: string, now: int): map<string, Item>
    requires StagingName(ts) in es && es[StagingName(ts)].Folder?
  {
    es[LedgerName := LedgerFile(newHashes, now)]
      [ArchiveName(ts) := File(Zip(es[StagingName(ts)].files), now)] - {StagingName(ts)}
  }

  /** How a run ends before retention: stopped with a result, or handed to retention. */
  datatype Run =
    | Stopped(result: Result<string, BackupError>, state: map<string, Item>)
    | Retain(state: map<string, Item>)

  /**
   * The rest of a run once the staging folder exists in `es` and the ledger has
   * been loaded as `existing`: the walk, then the no-change or the change branch.
   */
  function PlannedWalk(es: map<string, Item>, walk: seq<SourceFile>, existing: map<string, string>,
                       hash: Content -> HexDigest, ts: string, now: int): Run
    requires StagingName(ts) in es && es[StagingName(ts)].Folder?
  {
    if !AnyCopied(walk, existing, hash) then Stopped(Success(SkippedMessage), es - {StagingName(ts)})
    else
      var scanned := Scanned(es, walk, existing, hash, ts);
      if ArchiveSlotTaken(es, ts) then
        Stopped(Failure(ArchiveSlotIsFolder), scanned[LedgerName := LedgerFile(ScanLedger(walk, hash), now)])
      else Retain(Committed(scanned, ScanLedger(walk, hash), ts, now))
  }

  /**
   * What `create_backup` does to the backup directory `es`, up to retention: the
   * state it leaves and, unless it reaches retention, what it returns or raises.
   */
  function PlannedRun(es: map<string, Item>, walk: seq<SourceFile>, hash: Content -> HexDigest, ts: string, now: int): Run
  {
    if StagingBlocked(es, ts) then Stopped(Failure(StagingIsFile), es)
    else
      match ReadLedger(es)
      case Failure(err) => Stopped(Failure(err), WithStaging(es, ts))
      case Success(existing) => PlannedWalk(WithStaging(es, ts), walk, existing, hash, ts, now)
  }

  /**
   * Whether a run whose plan is `plan` ended correctly with result `r` and backup
   * directory `after`: a stopped run with the planned result and state; a run that
   * reached retention with the planned state pruned to `maxBackups` archives and the
   * completion message naming `zipPath`, or the error retention raises on a negative cap.
   */
  predicate RunEnded(plan: Run, maxBackups: int, zipPath: string, r: Result<string, BackupError>, after: map<string, Item>)
  {
    match plan
    case Stopped(result, state) => r == result && after == state
    case Retain(state) =>
      && Pruned(state, after, maxBackups)
      && r == if maxBackups >= 0 then Success(CompletedMessage + zipPath) else Failure(PopFromEmptyList)
  }

  /**
   * A run that reaches retention has rewritten the ledger with the new hashes,
   * added exactly one archive, holding the files copied into the staging folder,
   * removed the staging folder, and changed nothing else.
   */
  lemma ChangeRunEffects(es: map<string, Item>, walk: seq<SourceFile>, hash: Content -> HexDigest, ts: string, now: int)
    requires IsTimestamp(ts) && PlannedRun(es, walk, hash, ts, now).Retain?
    ensures var after := PlannedRun(es, walk, hash, ts, now).state;
            && ReadLedger(es).Success? && AnyCopied(walk, ReadLedger(es).value, hash)
            && LedgerName in after && after[LedgerName] == LedgerFile(ScanLedger(walk, hash), now)
            && ArchiveName(ts) in after
            && after[ArchiveName(ts)] == File(Zip(Staged(walk, ReadLedger(es).value, hash, StagingFiles(es, ts))), now)
            && StagingName(ts) !in after
            && Archives(after) == Archives(es) + {ArchiveName(ts)}
            && (forall n :: n != LedgerName && n != ArchiveName(ts) && n != StagingName(ts) ==>
                  (n in after <==> n in es) && (n in after ==> after[n] == es[n]))
  {
    RunNames(ts);
    var existing := ReadLedger(es).value;
    var scanned := Scanned(WithStaging(es, ts), walk, existing, hash, ts);
    assert !ArchiveSlotTaken(es, ts) && PlannedRun(es, walk, hash, ts, now).state == Committed(scanned, ScanLedger(walk, hash), ts, now) by {
      assert !ArchiveSlotTaken(WithStaging(es, ts), ts);
    }
    CommittedEffects(scanned, ScanLedger(walk, hash), ts, now);
    assert Archives(scanned) == Archives(es) by {
      ArchivesOtherName(es, StagingName(ts), scanned[StagingName(ts)]);
    }
  }

  /**
   * A text ledger that does not load is reported with the first line that has
   * no `|` after stripping.
   */
  lemma ReadLedgerNamesBadLine(es: map<string, Item>)
    requires LedgerName in es && es[LedgerName].File? && es[LedgerName].data.Text?
    ensures var lines := Lines(TranslateNewlines(es[LedgerName].data.text));
            var r := ReadLedger(es);
            && (r.Failure? <==> exists j :: 0 <= j < |lines| && '|' !in Strip(lines[j]))
            && (r.Failure? ==> r.error.MalformedLedger? && r.error.line < |lines| && '|' !in Strip(lines[r.error.line]) &&
                               forall j :: 0 <= j < r.error.line ==> '|' in Strip(lines[j]))
  {
    LoadFailsOnLineWithoutBar(es[LedgerName].data.text);
  }

  /**
   * A run skips exactly when the staging name is free, the ledger reads and no
   * visited file is copied. It then leaves the directory as it found it, without
   * the staging folder: the ledger and the archives are untouched.
   */
  lemma NoChangeRunEffects(es: map<string, Item>, walk: seq<SourceFile>, hash: Content -> HexDigest, ts: string, now: int)
    ensures var plan := PlannedRun(es, walk, hash, ts, now);
            (plan.Stopped? && plan.result == Success(SkippedMessage)) <==>
              !StagingBlocked(es, ts) && ReadLedger(es).Success? && !AnyCopied(walk, ReadLedger(es).value, hash)
    ensures !StagingBlocked(es, ts) && ReadLedger(es).Success? && !AnyCopied(walk, ReadLedger(es).value, hash) ==>
              PlannedRun(es, walk, hash, ts, now).state == es - {StagingName(ts)}
  {
    assert WithStaging(es, ts) - {StagingName(ts)} == es - {StagingName(ts)};
  }

  /** Writing the ledger and the archive and removing the staging folder touches just those three names. */
  lemma CommittedEffects(es: map<string, Item>, newHashes: seq<Entry>, ts: string, now: int)
    requires IsTimestamp(ts) && StagingName(ts) in es && es[StagingName(ts)].Folder? && !ArchiveSlotTaken(es, ts)
    ensures var after := Committed(es, newHashes, ts, now);
            && LedgerName in after && after[LedgerName] == LedgerFile(newHashes, now)
            && ArchiveName(ts) in after && after[ArchiveName(ts)] == File(Zip(es[StagingName(ts)].files), now)
            && StagingName(ts) !in after
            && Archives(after) == Archives(es) + {ArchiveName(ts)}
            && (forall n :: n != LedgerName && n != ArchiveName(ts) && n != StagingName(ts) ==>
                  (n in after <==> n in es) && (n in after ==> after[n] == es[n]))
  {
    RunNames(ts);
  }

  /** Setting an entry whose name does not match the glob leaves the archives as they were. */
  lemma ArchivesOtherName(es: map<string, Item>, n: string, it: Item)
    requires !IsArchiveName(n)
    ensures Archives(es[n := it]) == Archives(es)
  {
  }

  /**
   * Two runs over the same source files (each path once, none holding `|`, a line
   * break or leading whitespace): after the first run reaches retention, the
   * second, at any later timestamp whose staging name is free, finds no change,
   * writes nothing and removes its staging folder.
   */
  lemma {:induction false} RerunFindsNoChanges(e0: map<string, Item>, e2: map<string, Item>, walk: seq<SourceFile>,
                                               hash: Content -> HexDigest, ts: string, now: int, max: int,
                                               ts2: string, now2: int)
    requires IsTimestamp(ts) && PlannedRun(e0, walk, hash, ts, now).Retain?
    requires Pruned(PlannedRun(e0, walk, hash, ts, now).state, e2, max)
    requires DistinctPaths(walk) && forall i :: 0 <= i < |walk| ==> SafeKey(walk[i].path)
    requires !StagingBlocked(e2, ts2)
    ensures PlannedRun(e2, walk, hash, ts2, now2) == Stopped(Success(SkippedMessage), e2 - {StagingName(ts2)})
  {
    var e1 := PlannedRun(e0, walk, hash, ts, now).state;
    assert LedgerName in e1 && e1[LedgerName] == LedgerFile(ScanLedger(walk, hash), now) by {
      ChangeRunEffects(e0, walk, hash, ts, now);
    }
    assert ReadLedger(e2).Success? && !AnyCopied(walk, ReadLedger(e2).value, hash) by {
      SecondRunCopiesNothing(e1, e2, walk, hash, now, max);
    }
    assert WithStaging(e2, ts2) - {StagingName(ts2)} == e2 - {StagingName(ts2)};
  }

  /** Only the ledger's own entry decides what reading the ledger gives. */
  lemma ReadLedgerIgnoresOthers(es: map<string, Item>, n: string, it: Item)
    requires n != LedgerName
    ensures ReadLedger(es[n := it]) == ReadLedger(es)
  {
    assert LedgerName in es[n := it] <==> LedgerName in es;
  }

  class BackupDirectory {
    /** The top-level entries of the backup directory, by name. */
    var entries: map<string, Item>

    constructor (initial: map<string, Item>)
      ensures entries == initial
    {
      entries := initial;
    }

    /** The hits of the glob `backup_*.zip`, in whatever order the directory lists them. */
    method ListArchives() returns (listed: seq<ArchiveRef>)
      ensures Listing(entries, listed)
    {
      var pending := Archives(entries);
      listed := [];
      while pending != {}
        invariant pending <= Archives(entries)
        invariant Names(listed) == Archives(entries) - pending
        invariant DistinctNames(listed) && TimesOf(entries, listed)
        decreases |pending|
      {
        var n :| n in pending;
        ListOneMore(entries, listed, n);
        listed := listed + [ArchiveRef(n, entries[n].mtime)];
        pending := pending - {n};
      }
    }

    /**
     * `manage_backups`: sorts the archives newest first and deletes the last one
     * while more than `maxBackups` remain. A negative cap deletes every archive and
     * then fails popping the empty list.
     */
    method ManageBackups(maxBackups: int) returns (r: Result<(), BackupError>)
      modifies this
      ensures r.Success? <==> maxBackups >= 0
      ensures r.Failure? ==> r.error == PopFromEmptyList
      ensures Pruned(old(entries), entries, maxBackups)
    {
      var listed := ListArchives();
      var files := SortNewestFirst(listed);
      SortedListing(entries, listed);
      ghost var before := entries;
      var kept;
      kept, r := DeleteOldest(files, maxBackups);
      PrunedTail(before, files, kept, maxBackups);
    }

    /**
     * The loop of `manage_backups`: pops the last (oldest) archive off the list and
     * deletes it while more than `maxBackups` remain; popping an empty list fails.
     * Returns how many archives of the list were kept.
     */
    method DeleteOldest(files0: seq<ArchiveRef>, maxBackups: int) returns (kept: nat, r: Result<(), BackupError>)
      modifies this
      ensures kept == if maxBackups < 0 then 0 else if |files0| <= maxBackups then |files0| else maxBackups
      ensures entries == old(entries) - Names(files0[kept..])
      ensures r.Success? <==> maxBackups >= 0
      ensures r.Failure? ==> r.error == PopFromEmptyList
    {
      var files := files0;
      while |files| > maxBackups
        invariant |files| <= |files0| && files == files0[..|files|]
        invariant |files| == |files0| || |files| >= maxBackups
        invariant entries == old(entries) - Names(files0[|files|..])
        decreases |files|
      {
        if files == [] {
          return 0, Failure(PopFromEmptyList);
        }
        var oldest := files[|files| - 1];
        assert oldest == files0[|files| - 1];
        files := files[..|files| - 1];
        NamesFrom(files0, |files|);
        DeleteOneMore(old(entries), Names(files0[|files| + 1..]), oldest.name);
        entries := entries - {oldest.name};
      }
      return |files|, Success(());
    }

    /**
     * `create_backup`: makes the staging folder, reads the ledger, walks the source
     * copying new and changed files, and then either discards the staging folder
     * (no change) or rewrites the ledger, archives the staging folder, removes it
     * and runs retention.
     */
    method CreateBackup(backupDir: string, walk: seq<SourceFile>, hash: Content -> HexDigest,
                        ts: string, now: int, maxBackups: int)
      returns (r: Result<string, BackupError>)
      requires IsTimestamp(ts)
      modifies this
      ensures RunEnded(old(PlannedRun(entries, walk, hash, ts, now)), maxBackups, JoinPath(backupDir, ArchiveName(ts)), r, entries)
    {
      RunNames(ts);
      ghost var e0 := entries;
      var made := MakeStaging(ts);
      if made.Failure? {
        return Failure(made.error);
      }
      var loaded := ReadLedger(entries);
      assert loaded == ReadLedger(e0) by {
        ReadLedgerIgnoresOthers(e0, StagingName(ts), Folder(made.value));
      }
      if loaded.Failure? {
        return Failure(loaded.error);
      }
      r := CopyChanges(backupDir, walk, hash, ts, now, maxBackups, loaded.value);
    }

    /**
     * The part of `create_backup` after the ledger is loaded as `existing`: the walk,
     * then the no-change branch, or the change branch and retention.
     */
    method CopyChanges(backupDir: string, walk: seq<SourceFile>, hash: Content -> HexDigest,
                       ts: string, now: int, maxBackups: int, existing: map<string, string>)
      returns (r: Result<string, BackupError>)
      requires IsTimestamp(ts) && StagingName(ts) in entries && entries[StagingName(ts)].Folder?
      modifies this
      ensures RunEnded(old(PlannedWalk(entries, walk, existing, hash, ts, now)), maxBackups,
                       JoinPath(backupDir, ArchiveName(ts)), r, entries)
    {
      RunNames(ts);
      var newHashes, staged, changes := ScanSource(walk, existing, hash, entries[StagingName(ts)].files);
      entries := entries[StagingName(ts) := Folder(staged)];
      if !changes {
        entries := entries - {StagingName(ts)};
        return Success(SkippedMessage);
      }
      var done := ArchiveChanges(ts, now, newHashes, maxBackups);
      r := if done.Failure? then Failure(done.error) else Success(CompletedMessage + JoinPath(backupDir, ArchiveName(ts)));
    }

    /**
     * The change branch: rewrites the ledger, zips the staging folder into the
     * archive, removes the staging folder and runs retention.
     */
    method ArchiveChanges(ts: string, now: int, newHashes: seq<Entry>, maxBackups: int) returns (r: Result<(), BackupError>)
      requires IsTimestamp(ts) && StagingName(ts) in entries && entries[StagingName(ts)].Folder?
      modifies this
      ensures ArchiveSlotTaken(old(entries), ts) ==>
                r == Failure(ArchiveSlotIsFolder) && entries == old(entries)[LedgerName := LedgerFile(newHashes, now)]
      ensures !ArchiveSlotTaken(old(entries), ts) ==>
                && Pruned(Committed(old(entries), newHashes, ts, now), entries, maxBackups)
                && (r.Success? <==> maxBackups >= 0)
                && (r.Failure? ==> r.error == PopFromEmptyList)
    {
      RunNames(ts);
      ghost var e0 := entries;
      var text := SaveLedger(newHashes);
      entries := entries[LedgerName := File(Text(text), now)];
      assert entries[StagingName(ts)] == e0[StagingName(ts)];
      var archived := WriteArchive(ts, now);
      if archived.Failure? {
        return Failure(archived.error);
      }
      assert entries == Committed(e0, newHashes, ts, now);
      r := ManageBackups(maxBackups);
    }

    /** `os.makedirs(backup_folder, exist_ok=True)`: fails on a file in the way, keeps a folder already there. */
    method MakeStaging(ts: string) returns (r: Result<map<string, Content>, BackupError>)
      modifies this
      ensures StagingBlocked(old(entries), ts) ==> r == Failure(StagingIsFile) && entries == old(entries)
      ensures !StagingBlocked(old(entries), ts) ==>
                r == Success(StagingFiles(old(entries), ts)) && entries == WithStaging(old(entries), ts)
    {
      var staging := StagingName(ts);
      if staging !in entries {
        entries := entries[staging := Folder(map[])];
        return Success(map[]);
      }
      match entries[staging]
      case File(_, _) =>
        return Failure(StagingIsFile);
      case Folder(files) =>
        return Success(files);
    }

    /**
     * Zipping the staging folder into `backup_<ts>.zip`, one member per file under its
     * path relative to the folder, then removing the folder. Opening the archive
     * fails when a folder holds its name.
     */
    method WriteArchive(ts: string, now: int) returns (r: Result<(), BackupError>)
      requires StagingName(ts) in entries && entries[StagingName(ts)].Folder?
      modifies this
      ensures ArchiveSlotTaken(old(entries), ts) ==> r == Failure(ArchiveSlotIsFolder) && entries == old(entries)
      ensures !ArchiveSlotTaken(old(entries), ts) ==>
                r == Success(()) &&
                entries == old(entries)[ArchiveName(ts) := File(Zip(old(entries)[StagingName(ts)].files), now)] - {StagingName(ts)}
    {
      var archive := ArchiveName(ts);
      if archive in entries && entries[archive].Folder? {
        return Failure(ArchiveSlotIsFolder);
      }
      entries := entries[archive := File(Zip(entries[StagingName(ts)].files), now)] - {StagingName(ts)};
      return Success(());
    }
  }
}
