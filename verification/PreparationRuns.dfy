/** What every sequence of preparation runs keeps, wherever each run finishes, fails or
    crashes. A step of a sequence is any pair of disks that one run relates by
    `Survivable`, which `PrepareEvaluationSource` ensures of every state it passes. */
module PreparationRuns {
  import opened FileSystem
  import opened ManifestSize
  import opened Options
  import opened PreparationSteps
  import opened SourceManifest
  import opened SourcePreparation

  /** A verified entry never disagrees with a managed file that exists. */
  ghost predicate Intact(world: World, source: Source, disk: Disk) {
    source.lifecycle.Verified? && RecordedPaths(source) ==>
      && (RawPath(source) in disk ==> RawAgrees(world, source, disk))
      && (ProcessedPath(source) in disk ==> ProcessedAgrees(world, source, disk))
  }

  /** The entries that the manifest file holds, whether or not the loader accepts the file. */
  ghost function EntriesOn(disk: Disk): seq<Source> {
    if IsFile(disk, ManifestPath) && disk[ManifestPath].content.Document?
    then disk[ManifestPath].content.manifest.sources else []
  }

  ghost predicate Consistent(world: World, disk: Disk) {
    forall i :: 0 <= i < |EntriesOn(disk)| ==> Intact(world, EntriesOn(disk)[i], disk)
  }

  lemma LoadedEntries(world: World, disk: Disk)
    ensures ManifestOn(world, disk).Ok? ==>
              IsFile(disk, ManifestPath) && EntriesOn(disk) == ManifestOn(world, disk).value.sources
  {
    hide ValidManifest;
  }

  /** No state of a run touches a file that existed, the manifest excepted. */
  lemma FilesSurvive(world: World, id: string, before: Disk, now: Disk, p: Path)
    requires Survivable(world, id, before, now) && p in before && p != ManifestPath
    ensures p in now && now[p] == before[p]
  {
    hide CompactSize, FileSize, WithinSchema;
  }

  /** In no state of a run has the manifest changed except by the commit. */
  lemma ManifestSurvives(world: World, id: string, before: Disk, now: Disk)
    requires Survivable(world, id, before, now)
    ensures (exists entry :: CommittedRun(world, id, before, now, entry))
            || ((ManifestPath in now <==> ManifestPath in before)
                && (ManifestPath in now ==> now[ManifestPath] == before[ManifestPath]))
  {
  }

  lemma UncommittedKeepsIntact(world: World, id: string, before: Disk, now: Disk, source: Source, other: Source)
    requires Extension(source.format).Some? && Uncommitted(world, source, before, now)
    requires source.lifecycle.Verified? ==> RecordedPaths(source)
    requires Intact(world, other, before) && (other == source || other.id != source.id)
    ensures Intact(world, other, now)
  {
  }

  lemma CommittedKeepsIntact(world: World, manifest: Manifest, source: Source, entry: Source, before: Disk,
                             now: Disk, other: Source)
    requires Extension(source.format).Some? && Committed(world, manifest, source, entry, before, now)
    requires other == entry || (other.id != source.id && Intact(world, other, before))
    ensures Intact(world, other, now)
  {
    hide CompactSize, FileSize, WithinSchema;
  }

  /** What the loader sees after a commit: the updated manifest, if its file is not too long. */
  lemma LoadedAfterCommit(world: World, id: string, before: Disk, now: Disk, entry: Source)
    requires CommittedRun(world, id, before, now, entry)
    ensures var manifest := ManifestOn(world, before).value;
            var updated := ReplaceSource(manifest, entry);
            && entry.id == id && ValidSource(entry) && EntriesOn(now) == updated.sources
            && ManifestOn(world, now) == (if FileSize(updated) <= MAX_MANIFEST_BYTES then Ok(updated)
                                          else Err(ManifestTooLarge))
            && updated.sources == manifest.sources[FindSource(manifest, id).value := entry]
            && FindSource(updated, id) == FindSource(manifest, id)
  {
    hide CompactSize, FileSize, WithinSchema;
    ReplacedSource(ManifestOn(world, before).value, entry);
  }

  /** Main result, one run: wherever it stops, the verified entries in the manifest file still
      agree with the files. */
  lemma SurvivableIsConsistent(world: World, id: string, before: Disk, now: Disk)
    requires Consistent(world, before) && Survivable(world, id, before, now)
    ensures Consistent(world, now)
  {
    hide CompactSize, FileSize, WithinSchema, Committed, Uncommitted, Intact, ManifestOn, EntriesOn;
    if now == before {
    } else if exists entry :: CommittedRun(world, id, before, now, entry) {
      var entry :| CommittedRun(world, id, before, now, entry);
      CommittedIsConsistent(world, id, before, now, entry);
    } else {
      var source := SourceOn(world, before, id).value;
      LoadedEntries(world, before);
      EntriesKept(world, source, before, now);
      var entries := EntriesOn(before);
      assert ValidSources(ManifestOn(world, before).value) by { LoadedIsValid(world, before); }
      var k := FindSource(ManifestOn(world, before).value, id).value;
      forall i | 0 <= i < |entries|
        ensures Intact(world, entries[i], now)
      {
        assert i < k || i == k || k < i;
        UncommittedKeepsIntact(world, id, before, now, source, entries[i]);
      }
    }
  }

  lemma EntriesKept(world: World, source: Source, before: Disk, now: Disk)
    requires Extension(source.format).Some? && Uncommitted(world, source, before, now)
    requires IsFile(before, ManifestPath)
    ensures EntriesOn(now) == EntriesOn(before)
  {
  }

  lemma ManifestKept(world: World, source: Source, before: Disk, now: Disk)
    requires Extension(source.format).Some? && Uncommitted(world, source, before, now) && ManifestOn(world, before).Ok?
    ensures ManifestOn(world, now) == ManifestOn(world, before)
  {
  }

  lemma CommittedIsConsistent(world: World, id: string, before: Disk, now: Disk, entry: Source)
    requires Consistent(world, before) && CommittedRun(world, id, before, now, entry)
    ensures Consistent(world, now)
  {
    hide Committed, Intact, EntriesOn;
    LoadedAfterCommit(world, id, before, now, entry);
    LoadedEntries(world, before);
    var manifest := ManifestOn(world, before).value;
    var k := FindSource(manifest, id).value;
    forall i | 0 <= i < |EntriesOn(now)|
      ensures Intact(world, EntriesOn(now)[i], now)
    {
      assert i < k || i == k || k < i;
      CommittedKeepsIntact(world, manifest, SourceOn(world, before, id).value, entry, before, now, EntriesOn(now)[i]);
    }
  }

  /** A sequence of runs: run `i` is for `ids[i]`, starts on `disks[i]`, and finishes or
      stops on `disks[i + 1]`. */
  ghost predicate Runs(world: World, ids: seq<string>, disks: seq<Disk>) {
    && |disks| == |ids| + 1
    && forall i :: 0 <= i < |ids| ==> Survivable(world, ids[i], disks[i], disks[i + 1])
  }

  /** Main result, every sequence of runs: verified entries agree with the files throughout,
      and no file that existed is ever changed or deleted. */
  lemma {:induction false} RunsStayConsistent(world: World, ids: seq<string>, disks: seq<Disk>, k: nat)
    requires Runs(world, ids, disks) && k < |disks| && Consistent(world, disks[0])
    ensures Consistent(world, disks[k])
    ensures forall p :: p in disks[0] && p != ManifestPath ==> p in disks[k] && disks[k][p] == disks[0][p]
  {
    hide Survivable, Consistent;
    if k > 0 {
      RunsStayConsistent(world, ids, disks, k - 1);
      SurvivableIsConsistent(world, ids[k - 1], disks[k - 1], disks[k]);
      forall p | p in disks[k - 1] && p != ManifestPath
        ensures p in disks[k] && disks[k][p] == disks[k - 1][p]
      {
        FilesSurvive(world, ids[k - 1], disks[k - 1], disks[k], p);
      }
    }
  }

  /** The manifest file lists the verified source, and both its files agree with the entry. */
  ghost predicate Holds(world: World, source: Source, disk: Disk) {
    source in EntriesOn(disk) && Recorded(world, source, disk)
  }

  lemma SurvivableHolds(world: World, id: string, before: Disk, now: Disk, source: Source)
    requires Survivable(world, id, before, now) && Holds(world, source, before)
    ensures Holds(world, source, now)
  {
    hide CompactSize, FileSize, WithinSchema, Committed, Uncommitted, Recorded, ManifestOn, EntriesOn;
    if now == before {
    } else if exists entry :: CommittedRun(world, id, before, now, entry) {
      var entry :| CommittedRun(world, id, before, now, entry);
      LoadedEntries(world, before);
      LoadedAfterCommit(world, id, before, now, entry);
      var i :| 0 <= i < |EntriesOn(before)| && EntriesOn(before)[i] == source;
      CommittedKeepsRecord(world, ManifestOn(world, before).value, SourceOn(world, before, id).value, entry, before,
                           now, source);
      assert EntriesOn(now)[i] == source;
    } else {
      LoadedEntries(world, before);
      EntriesKept(world, SourceOn(world, before, id).value, before, now);
      UncommittedKeepsRecord(world, SourceOn(world, before, id).value, before, now, source);
    }
  }

  /** A commit is never for a source whose files are there. */
  lemma CommittedKeepsRecord(world: World, manifest: Manifest, source: Source, entry: Source, before: Disk, now: Disk,
                             other: Source)
    requires Extension(source.format).Some? && Committed(world, manifest, source, entry, before, now)
    requires Recorded(world, other, before)
    ensures other != source && Recorded(world, other, now)
  {
    hide CompactSize, FileSize, WithinSchema;
  }

  lemma UncommittedKeepsRecord(world: World, source: Source, before: Disk, now: Disk, other: Source)
    requires Extension(source.format).Some? && Uncommitted(world, source, before, now) && Recorded(world, other, before)
    ensures Recorded(world, other, now)
  {
  }

  /** Main result, every sequence of runs: a verified entry whose files are there is never lost or
      changed, in a manifest too long to load as well. */
  lemma {:induction false} RecordsStay(world: World, ids: seq<string>, disks: seq<Disk>, k: nat, source: Source)
    requires Runs(world, ids, disks) && k < |disks| && Holds(world, source, disks[0])
    ensures Holds(world, source, disks[k])
  {
    hide Survivable, Holds;
    if k > 0 {
      RecordsStay(world, ids, disks, k - 1, source);
      SurvivableHolds(world, ids[k - 1], disks[k - 1], disks[k], source);
    }
  }

  /** Main result: after a success the next run finds its record, exactly when the
      manifest file that was written is short enough to be loaded again. The script
      measures the compact form before writing and the indented form when loading. */
  lemma RerunReusesExactlyWhenLoadable(world: World, id: string, before: Disk, now: Disk, entry: Source)
    requires CommittedRun(world, id, before, now, entry)
    ensures FileSize(ReplaceSource(ManifestOn(world, before).value, entry)) <= MAX_MANIFEST_BYTES <==>
              SourceOn(world, now, id) == Some(entry) && Recorded(world, entry, now)
    ensures FileSize(ReplaceSource(ManifestOn(world, before).value, entry)) > MAX_MANIFEST_BYTES <==>
              ManifestOn(world, now) == Err(ManifestTooLarge)
  {
    LoadedAfterCommit(world, id, before, now, entry);
  }

  /** A crash before the commit leaves a planned source that no later run touches until
      its leftovers are removed; a verified source is usable again as soon as both
      files have their final names, and otherwise blocked in the same way. */
  lemma CrashLeftoversBlock(world: World, id: string, before: Disk, now: Disk, allowDownload: bool,
                            preflightAllowed: bool, response: Response)
    requires SourceOn(world, before, id).Some?
    requires var source := SourceOn(world, before, id).value;
             && Extension(source.format).Some? && (source.lifecycle.Verified? ==> RecordedPaths(source))
             && Unobstructed(source, before) && Part(ManifestPath) !in before
             && Uncommitted(world, source, before, now)
    requires now != before
    ensures SourceOn(world, now, id) == SourceOn(world, before, id)
    ensures var source := SourceOn(world, before, id).value;
            Acceptable(world, now, id, allowDownload, preflightAllowed, response) <==>
              source.lifecycle.Verified? && RawPath(source) in now && ProcessedPath(source) in now
  {
    hide CompactSize, FileSize, WithinSchema, Downloadable;
    var source := SourceOn(world, before, id).value;
    ManifestKept(world, source, before, now);
    LeftoverExists(world, source, before, now);
    BlockedByTemporary(world, ManifestOn(world, now).value, source, now, response);
  }

  /** After a crash every other source is accepted as before, unless the crash has left the
      manifest's part file: then no source is, except one that is recorded with its files. */
  lemma OthersAfterCrash(world: World, id: string, other: string, before: Disk, now: Disk, allowDownload: bool,
                         preflightAllowed: bool, response: Response)
    requires SourceOn(world, before, id).Some? && other != id
    requires var source := SourceOn(world, before, id).value;
             Extension(source.format).Some? && Part(ManifestPath) !in before && Uncommitted(world, source, before, now)
    ensures Acceptable(world, now, other, allowDownload, preflightAllowed, response) <==>
              if Part(ManifestPath) in now then IsRecorded(world, other, before)
              else Acceptable(world, before, other, allowDownload, preflightAllowed, response)
  {
    hide CompactSize, FileSize, WithinSchema, Uncommitted, Downloadable, Startable, Recorded, ManifestOn;
    var source := SourceOn(world, before, id).value;
    ManifestKept(world, source, before, now);
    if SourceOn(world, before, other).Some? {
      var s := SourceOn(world, before, other).value;
      OtherFilesKept(world, source, s, before, now, allowDownload, preflightAllowed);
      DownloadableElsewhere(world, ManifestOn(world, before).value, s, before, now, response);
      NotStartable(s, now, allowDownload, preflightAllowed);
    }
  }

  lemma OtherFilesKept(world: World, source: Source, other: Source, before: Disk, now: Disk, allowDownload: bool,
                       preflightAllowed: bool)
    requires Extension(source.format).Some? && Uncommitted(world, source, before, now) && other.id != source.id
    ensures Recorded(world, other, now) == Recorded(world, other, before)
    ensures Startable(other, now, allowDownload, preflightAllowed) ==
              Startable(other, before, allowDownload, preflightAllowed)
  {
  }

  lemma DownloadableElsewhere(world: World, manifest: Manifest, source: Source, before: Disk, now: Disk,
                              response: Response)
    requires Part(ManifestPath) !in before
    ensures Extension(source.format).Some? ==>
              (Downloadable(world, manifest, source, now, response) <==>
                 Part(ManifestPath) !in now && Downloadable(world, manifest, source, before, response))
  {
    hide Preparable, ValidManifest;
  }

  lemma LeftoverExists(world: World, source: Source, before: Disk, now: Disk)
    requires Extension(source.format).Some? && Uncommitted(world, source, before, now) && now != before
    ensures exists p :: p in Owned(source) && p in now
  {
  }

  lemma BlockedByTemporary(world: World, manifest: Manifest, source: Source, disk: Disk, response: Response)
    requires Extension(source.format).Some?
    ensures Downloadable(world, manifest, source, disk, response) ==> Part(ManifestPath) !in disk
  {
  }
}
