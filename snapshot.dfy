/**
 * The incremental pass of a backup run over the source tree.
 *
 * The walk of the source tree is given as the sequence of files in the order the
 * walk visits them, each with its path relative to the source directory and its
 * content. For every file the pass records the file's current hash in the new
 * ledger and copies the file into the staging folder when the loaded ledger has
 * no entry for its path or a different hash; a flag tells whether anything was
 * copied. The hash function (MD5 in the source) is a parameter.
 */
module Snapshot {
  import opened Dict
  import opened Results
  import opened Ledger

  newtype byte = x: int | 0 <= x < 256

  /** The bytes of a file. */
  type Content = seq<byte>

  /** One file of the walk: its path relative to the source directory, and its bytes. */
  datatype SourceFile = SourceFile(path: string, content: Content)

  /** The copy rule: a file is copied when its path is not in the ledger or is recorded with another hash. */
  predicate NeedsCopy(existing: map<string, string>, path: string, digest: string)
  {
    path !in existing || existing[path] != digest
  }

  /** Whether the file at position `i` of the walk is copied. */
  predicate Copied(walk: seq<SourceFile>, existing: map<string, string>, hash: Content -> HexDigest, i: nat)
    requires i < |walk|
  {
    NeedsCopy(existing, walk[i].path, hash(walk[i].content))
  }

  /** Whether the walk copies any file: the `changes` flag at the end of the walk. */
  predicate AnyCopied(walk: seq<SourceFile>, existing: map<string, string>, hash: Content -> HexDigest)
  {
    exists i :: 0 <= i < |walk| && Copied(walk, existing, hash, i)
  }

  /** The new ledger after visiting `walk`: one `new_hashes[rel_path] = hash` per file, in walk order. */
  function ScanLedger(walk: seq<SourceFile>, hash: Content -> HexDigest): seq<Entry>
  {
    if walk == [] then []
    else
      var f := walk[|walk| - 1];
      Put(ScanLedger(walk[..|walk| - 1], hash), f.path, hash(f.content))
  }

  /** The staging folder after visiting `walk`: every copied file at its relative path, over what was there before. */
  function Staged(walk: seq<SourceFile>, existing: map<string, string>, hash: Content -> HexDigest,
                  folder: map<string, Content>): map<string, Content>
  {
    if walk == [] then folder
    else
      var f := walk[|walk| - 1];
      var before := Staged(walk[..|walk| - 1], existing, hash, folder);
      if NeedsCopy(existing, f.path, hash(f.content)) then before[f.path := f.content] else before
  }

  /**
   * The walk loop of a backup run. Starting from the staging folder's current
   * files, it returns the new ledger, the staging folder's files afterwards, and
   * whether any file was copied.
   */
  method ScanSource(walk: seq<SourceFile>, existing: map<string, string>, hash: Content -> HexDigest,
                    folder: map<string, Content>)
    returns (newHashes: seq<Entry>, staged: map<string, Content>, changes: bool)
    ensures newHashes == ScanLedger(walk, hash)
    ensures staged == Staged(walk, existing, hash, folder)
    ensures changes == AnyCopied(walk, existing, hash)
  {
    newHashes := [];
    staged := folder;
    changes := false;
    for i := 0 to |walk|
      invariant newHashes == ScanLedger(walk[..i], hash)
      invariant staged == Staged(walk[..i], existing, hash, folder)
      invariant changes <==> exists j :: 0 <= j < i && Copied(walk, existing, hash, j)
    {
      var f := walk[i];
      var currentHash := hash(f.content);
      ScanStep(walk, existing, hash, folder, i);
      newHashes := Put(newHashes, f.path, currentHash);
      if f.path !in existing || existing[f.path] != currentHash {
        staged := staged[f.path := f.content];
        changes := true;
        assert Copied(walk, existing, hash, i);
      } else {
        assert forall j :: 0 <= j < i + 1 && Copied(walk, existing, hash, j) ==> j < i;
      }
    }
    assert walk[..|walk|] == walk;
  }

  /** One more file of the walk: its hash is put into the ledger, and the file is staged when copied. */
  lemma ScanStep(walk: seq<SourceFile>, existing: map<string, string>, hash: Content -> HexDigest,
                 folder: map<string, Content>, i: nat)
    requires i < |walk|
    ensures ScanLedger(walk[..i + 1], hash) == Put(ScanLedger(walk[..i], hash), walk[i].path, hash(walk[i].content))
    ensures Staged(walk[..i + 1], existing, hash, folder) ==
              var before := Staged(walk[..i], existing, hash, folder);
              if Copied(walk, existing, hash, i) then before[walk[i].path := walk[i].content] else before
  {
    assert walk[..i + 1][..i] == walk[..i] && walk[..i + 1][i] == walk[i];
  }

  /** The paths a walk visits. */
  function Paths(walk: seq<SourceFile>): set<string>
  {
    set i | 0 <= i < |walk| :: walk[i].path
  }

  predicate DistinctPaths(walk: seq<SourceFile>)
  {
    forall i, j :: 0 <= i < j < |walk| ==> walk[i].path != walk[j].path
  }

  /**
   * The new ledger is a dict (no path twice) whose paths are exactly the visited
   * ones: unchanged files keep an entry and paths no longer in the source drop out.
   */
  lemma {:induction false} ScanLedgerKeys(walk: seq<SourceFile>, hash: Content -> HexDigest)
    ensures UniqueKeys(ScanLedger(walk, hash))
    ensures Keys(ScanLedger(walk, hash)) == Paths(walk)
  {
    if walk != [] {
      var init := walk[..|walk| - 1];
      ScanLedgerKeys(init, hash);
      PutKeepsKeysUnique(ScanLedger(init, hash), walk[|walk| - 1].path, hash(walk[|walk| - 1].content));
      assert Paths(walk) == Paths(init) + {walk[|walk| - 1].path} by {
        forall p | p in Paths(walk) ensures p in Paths(init) + {walk[|walk| - 1].path} {
          var i :| 0 <= i < |walk| && walk[i].path == p;
          if i < |walk| - 1 { assert init[i].path == p; }
        }
      }
    }
  }

  /** The new ledger binds every visited path to the hash of its last visit. */
  lemma {:induction false} ScanLedgerLastVisitWins(walk: seq<SourceFile>, hash: Content -> HexDigest, i: nat)
    requires i < |walk|
    requires forall j :: i < j < |walk| ==> walk[j].path != walk[i].path
    ensures var m := ToMap(ScanLedger(walk, hash));
            walk[i].path in m && m[walk[i].path] == hash(walk[i].content)
  {
    var init := walk[..|walk| - 1];
    var f := walk[|walk| - 1];
    ScanLedgerMapStep(walk, hash);
    if i < |walk| - 1 {
      assert init[i] == walk[i];
      forall j | i < j < |init| ensures init[j].path != init[i].path {
        assert init[j] == walk[j];
      }
      ScanLedgerLastVisitWins(init, hash, i);
    }
  }

  /** Visiting one more file binds its path to its hash in the mapping the new ledger denotes. */
  lemma ScanLedgerMapStep(walk: seq<SourceFile>, hash: Content -> HexDigest)
    requires walk != []
    ensures var f := walk[|walk| - 1];
            ToMap(ScanLedger(walk, hash)) == ToMap(ScanLedger(walk[..|walk| - 1], hash))[f.path := hash(f.content)]
  {
    var init := walk[..|walk| - 1];
    var f := walk[|walk| - 1];
    ScanLedgerKeys(init, hash);
    PutUpdates(ScanLedger(init, hash), f.path, hash(f.content));
  }

  /** A walk that visits each path once gives the new ledger in walk order, one entry per file. */
  lemma {:induction false} ScanLedgerInWalkOrder(walk: seq<SourceFile>, hash: Content -> HexDigest)
    requires DistinctPaths(walk)
    ensures |ScanLedger(walk, hash)| == |walk|
    ensures forall i :: 0 <= i < |walk| ==> ScanLedger(walk, hash)[i] == Entry(walk[i].path, hash(walk[i].content))
  {
    if walk != [] {
      var init := walk[..|walk| - 1];
      var f := walk[|walk| - 1];
      assert DistinctPaths(init) && f.path !in Paths(init) by {
        DistinctInit(walk);
      }
      ScanLedgerInWalkOrder(init, hash);
      ScanLedgerKeys(init, hash);
      assert ScanLedger(walk, hash) == ScanLedger(init, hash) + [Entry(f.path, hash(f.content))];
      EntriesSnoc(walk, hash, ScanLedger(init, hash));
    }
  }

  lemma EntriesSnoc(walk: seq<SourceFile>, hash: Content -> HexDigest, es: seq<Entry>)
    requires walk != [] && |es| == |walk| - 1
    requires forall i :: 0 <= i < |es| ==> es[i] == Entry(walk[..|walk| - 1][i].path, hash(walk[..|walk| - 1][i].content))
    ensures var t := es + [Entry(walk[|walk| - 1].path, hash(walk[|walk| - 1].content))];
            |t| == |walk| && forall i :: 0 <= i < |walk| ==> t[i] == Entry(walk[i].path, hash(walk[i].content))
  {
    var t := es + [Entry(walk[|walk| - 1].path, hash(walk[|walk| - 1].content))];
    forall i | 0 <= i < |walk| ensures t[i] == Entry(walk[i].path, hash(walk[i].content)) {
      if i < |es| {
        assert walk[..|walk| - 1][i] == walk[i];
      }
    }
  }

  /** Dropping the last file of a walk without repeated paths leaves one, and the last path is not among the rest. */
  lemma DistinctInit(walk: seq<SourceFile>)
    requires walk != [] && DistinctPaths(walk)
    ensures DistinctPaths(walk[..|walk| - 1]) && walk[|walk| - 1].path !in Paths(walk[..|walk| - 1])
  {
    var init := walk[..|walk| - 1];
    forall i, j | 0 <= i < j < |init| ensures init[i].path != init[j].path {
      assert init[i] == walk[i] && init[j] == walk[j];
    }
    forall i | 0 <= i < |init| ensures init[i].path != walk[|walk| - 1].path {
      assert init[i] == walk[i];
    }
  }

  /**
   * A file is in the staging folder afterwards exactly when it was there before or
   * some visit of its path was copied.
   */
  lemma {:induction false} StagedPaths(walk: seq<SourceFile>, existing: map<string, string>,
                                       hash: Content -> HexDigest, folder: map<string, Content>, p: string)
    ensures p in Staged(walk, existing, hash, folder) <==>
            p in folder || exists i :: 0 <= i < |walk| && walk[i].path == p && Copied(walk, existing, hash, i)
  {
    if walk != [] {
      var init := walk[..|walk| - 1];
      StagedPaths(init, existing, hash, folder, p);
      if exists i :: 0 <= i < |walk| && walk[i].path == p && Copied(walk, existing, hash, i) {
        var i :| 0 <= i < |walk| && walk[i].path == p && Copied(walk, existing, hash, i);
        if i < |walk| - 1 { assert init[i] == walk[i]; }
      }
      if exists i :: 0 <= i < |init| && init[i].path == p && Copied(init, existing, hash, i) {
        var i :| 0 <= i < |init| && init[i].path == p && Copied(init, existing, hash, i);
        assert walk[i] == init[i];
      }
    }
  }

  /** A copied file holds, in the staging folder, the content of the last copied visit of its path. */
  lemma {:induction false} StagedHoldsLastCopy(walk: seq<SourceFile>, existing: map<string, string>,
                                               hash: Content -> HexDigest, folder: map<string, Content>, i: nat)
    requires i < |walk| && Copied(walk, existing, hash, i)
    requires forall j :: i < j < |walk| && walk[j].path == walk[i].path ==> !Copied(walk, existing, hash, j)
    ensures var s := Staged(walk, existing, hash, folder);
            walk[i].path in s && s[walk[i].path] == walk[i].content
  {
    var init := walk[..|walk| - 1];
    if i < |walk| - 1 {
      forall j | i < j < |init| && init[j].path == init[i].path ensures !Copied(init, existing, hash, j) {
        assert init[j] == walk[j];
      }
      StagedHoldsLastCopy(init, existing, hash, folder, i);
    }
  }

  /** A file whose path was never copied keeps what the staging folder held before. */
  lemma {:induction false} StagedKeepsUncopied(walk: seq<SourceFile>, existing: map<string, string>,
                                               hash: Content -> HexDigest, folder: map<string, Content>, p: string)
    requires forall i :: 0 <= i < |walk| && walk[i].path == p ==> !Copied(walk, existing, hash, i)
    ensures var s := Staged(walk, existing, hash, folder);
            (p in s <==> p in folder) && (p in folder ==> s[p] == folder[p])
  {
    if walk != [] {
      var init := walk[..|walk| - 1];
      forall i | 0 <= i < |init| && init[i].path == p ensures !Copied(init, existing, hash, i) {
        assert init[i] == walk[i];
      }
      StagedKeepsUncopied(init, existing, hash, folder, p);
    }
  }

  /**
   * Saving the new ledger and loading it again gives, for a walk that visits each
   * path once and whose paths survive the ledger format, the visited paths bound
   * to their hashes; a second pass over the same files then copies nothing.
   */
  lemma SavedLedgerReloads(walk: seq<SourceFile>, hash: Content -> HexDigest)
    requires DistinctPaths(walk)
    requires forall i :: 0 <= i < |walk| ==> SafeKey(walk[i].path)
    ensures var r := LoadLedger(Some(Serialize(ScanLedger(walk, hash))));
            && r.Success?
            && r.value.Keys == Paths(walk)
            && (forall i :: 0 <= i < |walk| ==> r.value[walk[i].path] == hash(walk[i].content))
            && (forall i :: 0 <= i < |walk| ==> !Copied(walk, r.value, hash, i))
  {
    var es := ScanLedger(walk, hash);
    ScanLedgerInWalkOrder(walk, hash);
    ScanLedgerKeys(walk, hash);
    forall i | 0 <= i < |es| ensures SafeKey(es[i].key) && SafeValue(es[i].value) {
      HexDigestIsSafe(hash(walk[i].content));
    }
    RoundTrip(es);
    forall i | 0 <= i < |walk| ensures ToMap(es)[walk[i].path] == hash(walk[i].content) {
      ScanLedgerLastVisitWins(walk, hash, i);
    }
  }
}
