/**
 * The archives that retention looks at, and the order it puts them in.
 *
 * `manage_backups` globs `backup_*.zip` in the backup directory, sorts the hits by
 * modification time with the newest first (`sorted(..., reverse=True)`, a stable
 * sort), and then deletes from the tail of that list. The deleting loop lives with
 * the backup directory (module Backup); this module holds the pure parts.
 */
module Retention {

  /** One hit of the glob: the archive's file name and its modification time. */
  datatype ArchiveRef = ArchiveRef(name: string, mtime: int)

  /** The glob pattern `backup_*.zip`: the `*` matches any run of characters, the empty one too. */
  predicate IsArchiveName(n: string)
  {
    |n| >= 11 && n[..7] == "backup_" && n[|n| - 4..] == ".zip"
  }

  /** Every name `backup_<ts>.zip` matches the glob. */
  lemma ArchiveNameMatches(ts: string)
    ensures IsArchiveName("backup_" + ts + ".zip")
  {
    var n := "backup_" + ts + ".zip";
    assert n[..7] == "backup_";
    assert n[|n| - 4..] == ".zip";
  }

  /** The ledger's own file name does not match the glob, so retention never deletes it. */
  lemma LedgerNameIsNoArchive()
    ensures !IsArchiveName("file_hashes.txt")
  {
    assert "file_hashes.txt"[..7] != "backup_" by { assert "file_hashes.txt"[0] == 'f'; }
  }

  /** Each archive at least as new as the next: the order of `sorted(key=mtime, reverse=True)`. */
  predicate NewestFirst(s: seq<ArchiveRef>)
  {
    forall i :: 0 < i < |s| ==> s[i].mtime <= s[i - 1].mtime
  }

  /** In a newest-first list no archive is newer than one before it. */
  lemma {:induction false} NewestFirstOrdered(s: seq<ArchiveRef>, i: nat, j: nat)
    requires NewestFirst(s) && i <= j < |s|
    ensures s[j].mtime <= s[i].mtime
  {
    if i < j {
      NewestFirstOrdered(s, i, j - 1);
    }
  }

  /**
   * Cutting a newest-first list after `k` entries: everything cut off is at most
   * as new as everything kept.
   */
  lemma NewestFirstSplit(s: seq<ArchiveRef>, k: nat)
    requires NewestFirst(s) && k <= |s|
    ensures forall i, j :: 0 <= i < k <= j < |s| ==> s[j].mtime <= s[i].mtime
  {
    forall i, j | 0 <= i < k <= j < |s| ensures s[j].mtime <= s[i].mtime {
      NewestFirstOrdered(s, i, j);
    }
  }

  /**
   * Places `r` into a newest-first list ahead of every archive that is not newer,
   * so that among equal times `r` stays before the ones it preceded.
   */
  function Insert(r: ArchiveRef, s: seq<ArchiveRef>): (t: seq<ArchiveRef>)
    requires NewestFirst(s)
    ensures NewestFirst(t)
    ensures multiset(t) == multiset(s) + multiset{r}
    ensures t[0] == r || (s != [] && t[0] == s[0])
  {
    if s == [] || s[0].mtime <= r.mtime then
      [r] + s
    else
      var rest := Insert(r, s[1..]);
      assert s == [s[0]] + s[1..];
      [s[0]] + rest
  }

  /** The archives sorted by modification time, newest first: a newest-first permutation of its input. */
  function SortNewestFirst(s: seq<ArchiveRef>): (t: seq<ArchiveRef>)
    ensures NewestFirst(t)
    ensures multiset(t) == multiset(s)
  {
    if s == [] then []
    else
      assert s == [s[0]] + s[1..];
      Insert(s[0], SortNewestFirst(s[1..]))
  }

  /** The file names of a list of archives. */
  function Names(s: seq<ArchiveRef>): set<string>
  {
    set i | 0 <= i < |s| :: s[i].name
  }

  lemma NamesSnoc(s: seq<ArchiveRef>, r: ArchiveRef)
    ensures Names(s + [r]) == Names(s) + {r.name}
  {
    var t := s + [r];
    forall n | n in Names(t) ensures n in Names(s) + {r.name} {
      var i :| 0 <= i < |t| && t[i].name == n;
      if i < |s| { assert s[i].name == n; }
    }
    forall n | n in Names(s) ensures n in Names(t) {
      var i :| 0 <= i < |s| && s[i].name == n;
      assert t[i].name == n;
    }
    assert t[|s|].name == r.name;
  }

  lemma NamesFrom(s: seq<ArchiveRef>, k: nat)
    requires k < |s|
    ensures Names(s[k..]) == Names(s[k + 1..]) + {s[k].name}
  {
    var t := s[k..];
    assert t[0] == s[k] && t[1..] == s[k + 1..];
    forall n | n in Names(t) ensures n in Names(t[1..]) + {s[k].name} {
      var i :| 0 <= i < |t| && t[i].name == n;
      if i > 0 { assert t[1..][i - 1].name == n; }
    }
    forall n | n in Names(t[1..]) ensures n in Names(t) {
      var i :| 0 <= i < |t| - 1 && t[1..][i].name == n;
      assert t[i + 1].name == n;
    }
  }

  predicate DistinctNames(s: seq<ArchiveRef>)
  {
    forall i, j :: 0 <= i < j < |s| ==> s[i].name != s[j].name
  }

  /** A reordering has the same elements, and so the same names. */
  lemma PermutationSameNames(a: seq<ArchiveRef>, b: seq<ArchiveRef>)
    requires multiset(a) == multiset(b)
    ensures forall x :: x in a <==> x in b
    ensures Names(a) == Names(b)
  {
    assert forall x :: x in a <==> x in multiset(a);
    assert forall x :: x in b <==> x in multiset(b);
    forall n | n in Names(a) ensures n in Names(b) {
      var i :| 0 <= i < |a| && a[i].name == n;
      assert a[i] in b;
    }
    forall n | n in Names(b) ensures n in Names(a) {
      var i :| 0 <= i < |b| && b[i].name == n;
      assert b[i] in a;
    }
  }

  /** Without repeated names, the names of the first `k` entries are all names but those of the rest. */
  lemma PrefixNames(s: seq<ArchiveRef>, k: nat)
    requires DistinctNames(s) && k <= |s|
    ensures Names(s[..k]) == Names(s) - Names(s[k..])
    ensures DistinctNames(s[..k])
  {
    forall n | n in Names(s[..k]) ensures n in Names(s) - Names(s[k..]) {
      var i :| 0 <= i < k && s[..k][i].name == n;
      assert s[i].name == n;
      forall j | 0 <= j < |s| - k ensures s[k..][j].name != n {
        assert s[k..][j] == s[k + j];
      }
    }
    forall n | n in Names(s) - Names(s[k..]) ensures n in Names(s[..k]) {
      var i :| 0 <= i < |s| && s[i].name == n;
      assert forall j :: k <= j < |s| ==> s[j] == s[k..][j - k];
      assert i < k;
      assert s[..k][i].name == n;
    }
  }

  predicate Distinct(s: seq<ArchiveRef>)
  {
    forall i, j :: 0 <= i < j < |s| ==> s[i] != s[j]
  }

  /** As many distinct names as list entries. */
  lemma {:induction false} DistinctNamesCount(s: seq<ArchiveRef>)
    requires DistinctNames(s)
    ensures |Names(s)| == |s|
  {
    if s != [] {
      var t := s[..|s| - 1];
      DistinctNamesCount(t);
      assert Names(s) == Names(t) + {s[|s| - 1].name} by {
        forall n | n in Names(s) ensures n in Names(t) + {s[|s| - 1].name} {
          var i :| 0 <= i < |s| && s[i].name == n;
          if i < |s| - 1 { assert t[i].name == n; }
        }
      }
      assert s[|s| - 1].name !in Names(t);
    }
  }

  /** In a list without repeats every element occurs once. */
  lemma {:induction false} DistinctOccursOnce(s: seq<ArchiveRef>)
    requires Distinct(s)
    ensures forall x :: multiset(s)[x] <= 1
  {
    if s != [] {
      DistinctOccursOnce(s[1..]);
      assert s == [s[0]] + s[1..];
      assert s[0] !in s[1..];
    }
  }

  /** A list in which every element occurs at most once has no repeats. */
  lemma OccursOnceDistinct(s: seq<ArchiveRef>)
    requires forall x :: multiset(s)[x] <= 1
    ensures Distinct(s)
  {
    forall i, j | 0 <= i < j < |s| ensures s[i] != s[j] {
      assert s == s[..j] + s[j..];
      assert s[i] == s[..j][i];
      assert s[j] == s[j..][0];
      assert multiset(s)[s[j]] == multiset(s[..j])[s[j]] + multiset(s[j..])[s[j]];
    }
  }

  /** Reordering a list without repeats gives a list without repeats. */
  lemma PermutationKeepsDistinct(a: seq<ArchiveRef>, b: seq<ArchiveRef>)
    requires multiset(a) == multiset(b) && Distinct(a)
    ensures Distinct(b)
  {
    DistinctOccursOnce(a);
    OccursOnceDistinct(b);
  }
}
