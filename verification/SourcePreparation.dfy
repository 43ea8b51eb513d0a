/** `prepare_evaluation_source` (scripts/prepare_m2_cross_border_eval.py): download,
    verify, transform and record one source, with a fault possible at every operation
    and a crash possible between any two. */
module SourcePreparation {
  import opened FileSystem
  import opened ManifestSize
  import opened Options
  import opened PreparationSteps
  import opened SourceManifest

  const TRANSFORMATION_VERSION := "m2-eval-transform-v1"

  /** `PreparedEvaluationSource`. */
  datatype Prepared = Prepared(
    sourceId: string, actualSize: nat, rawHash: Digest, processedHash: Digest, rawPath: Path, processedPath: Path,
    transformation: Transformation, transformationVersion: string, reused: bool)

  /** `_result_from_source` on a complete record. */
  function ResultFromSource(source: Source, reused: bool): Prepared
    requires HasRaw(source) && HasProcessed(source)
  {
    Prepared(source.id, source.actualSize.value, source.rawHash.value, source.processedHash.value,
             source.rawPath.value, source.processedPath.value,
             source.transformation.value, source.transformationVersion.value, reused)
  }

  /** `EvaluationSourceManifest`, as it is validated when loaded and when a source is replaced. */
  predicate ValidManifest(manifest: Manifest) {
    ValidSources(manifest) && WithinSchema(manifest) && CompactSize(manifest) <= MAX_MANIFEST_BYTES
  }

  /** What `load_source_manifest` makes of a manifest file it can read. */
  function ManifestOn(world: World, disk: Disk): Result<Manifest, Failure> {
    if !IsFile(disk, ManifestPath) then Err(ManifestInvalid)
    else
      match disk[ManifestPath].content
      case Blob(data) => Err(if |data| > MAX_MANIFEST_BYTES then ManifestTooLarge else ManifestInvalid)
      case Document(manifest, size) =>
        if size > MAX_MANIFEST_BYTES then Err(ManifestTooLarge)
        else if !ValidManifest(manifest) then Err(ManifestInvalid)
        else Ok(manifest)
  }

  /** The content of the manifest file, if there is one, is longer than the bytes that are read of it. */
  ghost predicate IsTooLong(content: Content) {
    match content
    case Blob(data) => |data| > 262144
    case Document(_, size) => size > 262144
  }

  /** A manifest is loaded exactly if the file holds it, short enough and valid; of the failures, being
      too long comes before being invalid. */
  lemma LoadedExactly(world: World, disk: Disk, manifest: Manifest)
    ensures ManifestOn(world, disk) == Ok(manifest) <==>
              && IsFile(disk, ManifestPath) && ValidManifest(manifest) && !IsTooLong(disk[ManifestPath].content)
              && disk[ManifestPath].content.Document? && disk[ManifestPath].content.manifest == manifest
    ensures ManifestOn(world, disk) == Err(ManifestTooLarge) <==>
              IsFile(disk, ManifestPath) && IsTooLong(disk[ManifestPath].content)
    ensures ManifestOn(world, disk).Err? ==> ManifestOn(world, disk).error in {ManifestTooLarge, ManifestInvalid}
  {
    hide ValidManifest;
  }

  /** `_validate_download_authorization`, as the failure it raises. */
  function AuthorizationFailure(source: Source): Option<Failure> {
    if !LicenseAllows(source.license) || !source.downloadAllowed || source.licenseName.None?
      || source.licenseUrl.None? then
      Some(LicenseNotApproved)
    else if source.sourceVersion.None? then Some(VersionNotPinned)
    else if Extension(source.format).None? then Some(FormatNotSelected)
    else if IsImage(source.format) then
      if source.kind.DeterministicTransform? then None else Some(KindNotApproved)
    else
      if source.kind.PublicSource? then None else Some(KindNotApproved)
  }

  /** A file that may be fetched: licensed, pinned to a version, and either an image that is turned
      into a PDF or a public document or table. */
  ghost predicate Approved(s: Source) {
    && s.downloadAllowed && s.licenseName.Some? && s.licenseUrl.Some? && s.sourceVersion.Some?
    && (s.license.AllowedRedistribution? || s.license.AllowedNoRedistribution?)
    && ((s.kind.DeterministicTransform? && (s.format.Png? || s.format.Jpeg?))
        || (s.kind.PublicSource? && (s.format.Pdf? || s.format.Docx? || s.format.Xlsx? || s.format.Csv?)))
  }

  /** Exactly the approved sources are authorized, and what the first failing check reports. */
  lemma AuthorizedExactly(s: Source)
    ensures AuthorizationFailure(s).None? <==> Approved(s)
    ensures AuthorizationFailure(s) == Some(LicenseNotApproved) <==>
              !s.downloadAllowed || s.licenseName.None? || s.licenseUrl.None?
              || s.license.PendingReview? || s.license.Prohibited?
    ensures AuthorizationFailure(s) == Some(VersionNotPinned) ==> s.sourceVersion.None?
    ensures AuthorizationFailure(s) == Some(FormatNotSelected) ==>
              s.format.Webpage? || s.format.RepositoryArchive? || s.format.DatasetArchive?
  {
  }

  lemma AuthorizedHasExtension(source: Source)
    ensures AuthorizationFailure(source).None? ==> Extension(source.format).Some?
  {
  }

  /** The record written for a source once it is verified. */
  function VerifiedEntry(source: Source, size: nat, rawHash: Digest, processedHash: Digest,
                         transformation: Transformation): Source
    requires Extension(source.format).Some?
  {
    source.(lifecycle := Verified, expectedSize := Some(size), actualSize := Some(size),
            rawHash := Some(rawHash), processedHash := Some(processedHash),
            rawPath := Some(RawPath(source)), processedPath := Some(ProcessedPath(source)),
            transformation := Some(transformation), transformationVersion := Some(TRANSFORMATION_VERSION))
  }

  ghost predicate RawAgrees(world: World, source: Source, disk: Disk)
    requires Extension(source.format).Some?
  {
    var path := RawPath(source);
    && IsFile(disk, path)
    && source.actualSize == Some(|BytesOf(world, disk[path].content)|)
    && source.rawHash == Some(world.sha(BytesOf(world, disk[path].content)))
  }

  ghost predicate ProcessedAgrees(world: World, source: Source, disk: Disk)
    requires Extension(source.format).Some?
  {
    var path := ProcessedPath(source);
    IsFile(disk, path) && source.processedHash == Some(world.sha(BytesOf(world, disk[path].content)))
  }

  /** The only paths a run for the source may create. */
  ghost function Owned(source: Source): set<Path>
    requires Extension(source.format).Some?
  {
    {RawPath(source), ProcessedPath(source), Part(RawPath(source)), Part(ProcessedPath(source)), Part(ManifestPath)}
  }

  /** Before the commit: nothing that existed has changed, everything new is owned by
      the run, and new managed files of a verified source have their pinned hashes. */
  ghost predicate Uncommitted(world: World, source: Source, before: Disk, now: Disk)
    requires Extension(source.format).Some?
  {
    && (forall p :: p in before ==> p in now && now[p] == before[p])
    && (forall p :: p in now ==> p in before || p in Owned(source))
    && (source.lifecycle.Verified? && RawPath(source) in now && RawPath(source) !in before ==>
        RawAgrees(world, source, now))
    && (source.lifecycle.Verified? && ProcessedPath(source) in now && ProcessedPath(source) !in before ==>
        ProcessedAgrees(world, source, now))
  }

  /** After the commit: both files are new, the manifest differs in this source's
      entry only, and the entry's size and hashes are those of the two files. */
  ghost predicate Committed(world: World, manifest: Manifest, source: Source, entry: Source, before: Disk, now: Disk)
    requires Extension(source.format).Some?
  {
    && RawPath(source) !in before && ProcessedPath(source) !in before
    && IsFile(now, RawPath(source)) && IsFile(now, ProcessedPath(source))
    && now == before[RawPath(source) := File(now[RawPath(source)].content, true)]
                    [ProcessedPath(source) := now[ProcessedPath(source)]]
                    [ManifestPath :=
                       File(Document(ReplaceSource(manifest, entry), FileSize(ReplaceSource(manifest, entry))), false)]
    && entry.actualSize.Some? && entry.rawHash.Some? && entry.processedHash.Some? && entry.transformation.Some?
    && entry == VerifiedEntry(source, entry.actualSize.value, entry.rawHash.value, entry.processedHash.value,
                              entry.transformation.value)
    && entry.transformation == Some(TransformationOf(source))
    && RawAgrees(world, entry, now) && ProcessedAgrees(world, entry, now)
    && ValidSource(entry) && ValidManifest(ReplaceSource(manifest, entry))
    && MatchesPins(source, entry)
    && (source.expectedSize.Some? ==> source.expectedSize == entry.actualSize)
  }

  function TransformationOf(source: Source): Transformation {
    if IsImage(source.format) then ImageToPdf else IdentityCopy
  }

  /** The record of a download of `body` that was transformed to `processed`. */
  function EntryFor(world: World, source: Source, body: Bytes, processed: Bytes): Source
    requires Extension(source.format).Some?
  {
    VerifiedEntry(source, |body|, world.sha(body), world.sha(processed), TransformationOf(source))
  }

  /** The record that a verified source pins: everything but the expected size. */
  predicate MatchesPins(source: Source, entry: Source) {
    source.lifecycle.Verified? ==> entry == source.(expectedSize := entry.expectedSize)
  }

  /** The answers from which both `.part` files can be filled. */
  ghost predicate Preparable(world: World, source: Source, response: Response)
    requires Extension(source.format).Some?
  {
    && Fetchable(world, source, response)
    && (source.expectedSize.Some? ==> source.expectedSize.value == |Body(response.chunks)|)
    && Transformed(world, source, Body(response.chunks)).Some?
    && MatchesPins(source, FetchedEntry(world, source, response))
  }

  ghost function FetchedEntry(world: World, source: Source, response: Response): Source
    requires Extension(source.format).Some? && response.Response?
    requires Transformed(world, source, Body(response.chunks)).Some?
  {
    EntryFor(world, source, Body(response.chunks), Transformed(world, source, Body(response.chunks)).value)
  }

  /** The answers with which a faithful, fault-free run succeeds. */
  ghost predicate Downloadable(world: World, manifest: Manifest, source: Source, disk: Disk, response: Response)
    requires Extension(source.format).Some?
  {
    && Preparable(world, source, response)
    && Part(ManifestPath) !in disk
    && ValidManifest(ReplaceSource(manifest, FetchedEntry(world, source, response)))
  }

  lemma PartsAreUncommitted(world: World, source: Source, before: Disk, now: Disk, ps: set<Path>)
    requires Extension(source.format).Some?
    requires RawPath(source) !in before && ProcessedPath(source) !in before
    requires ps <= {Part(RawPath(source)), Part(ProcessedPath(source)), Part(ManifestPath)}
    requires OnlyTouches(before, now, ps) && forall p :: p in ps ==> p !in before
    ensures Uncommitted(world, source, before, now)
  {
  }

  lemma ShrinkingStaysUncommitted(world: World, source: Source, before: Disk, now: Disk, after: Disk, ps: set<Path>)
    requires Extension(source.format).Some?
    requires Uncommitted(world, source, before, now) && Shrinks(now, after, ps)
    requires forall p :: p in ps ==> p !in before
    ensures Uncommitted(world, source, before, after)
  {
  }

  /** Every state since `from` is uncommitted, except that the last one may be committed. */
  ghost predicate Trail(world: World, source: Source, before: Disk, history: seq<Disk>, from: nat) {
    && Extension(source.format).Some?
    && forall k :: from <= k < |history| ==> Uncommitted(world, source, before, history[k])
  }

  lemma TrailGrows(world: World, source: Source, before: Disk, h1: seq<Disk>, h2: seq<Disk>, from: nat)
    requires Trail(world, source, before, h1, from)
    requires |h1| <= |h2| && h2[..|h1|] == h1
    requires Trail(world, source, before, h2, |h1|)
    ensures Trail(world, source, before, h2, from)
  {
  }

  ghost function Parts(source: Source): set<Path>
    requires Extension(source.format).Some?
  {
    {Part(RawPath(source)), Part(ProcessedPath(source))}
  }

  /** What is on disk and checked when the two `.part` files are complete. */
  ghost predicate PartsReady(world: World, source: Source, before: Disk, now: Disk, entry: Source, faithful: bool,
                             body: Bytes)
    requires Extension(source.format).Some?
  {
    var rawPart, processedPart := Part(RawPath(source)), Part(ProcessedPath(source));
    && OnlyTouches(before, now, Parts(source))
    && rawPart !in before && processedPart !in before
    && IsFile(now, rawPart) && IsFile(now, processedPart)
    && var rawBytes := BytesOf(world, now[rawPart].content);
       var processedBytes := BytesOf(world, now[processedPart].content);
       && rawBytes == body
       && entry == EntryFor(world, source, rawBytes, processedBytes)
       && 1 <= |rawBytes| <= source.maxDownloadBytes
       && MatchesPins(source, entry)
       && (source.expectedSize.Some? ==> source.expectedSize.value == |rawBytes|)
       && (faithful ==> Transformed(world, source, rawBytes) == Some(processedBytes))
  }

  lemma TouchesNothing(disk: Disk, ps: set<Path>)
    ensures OnlyTouches(disk, disk, ps)
  {
  }

  /** A step that writes one `.part` file passes through uncommitted states only. */
  lemma PartStates(world: World, source: Source, before: Disk, a: Disk, b: Disk, h1: seq<Disk>, h2: seq<Disk>,
                   part: Path)
    requires Extension(source.format).Some?
    requires RawPath(source) !in before && ProcessedPath(source) !in before
    requires part == Part(RawPath(source)) || part == Part(ProcessedPath(source))
    requires Part(RawPath(source)) !in before && Part(ProcessedPath(source)) !in before
    requires OnlyTouches(before, a, Parts(source))
    requires OnlyTouches(a, b, {part}) && NewStatesTouch(h1, h2, a, {part})
    ensures OnlyTouches(before, b, Parts(source))
    ensures Trail(world, source, before, h2, |h1|)
    ensures forall p :: p != part ==> (p in a <==> p in b) && (p in a && p in b ==> a[p] == b[p])
  {
    var parts := Parts(source);
    forall k | |h1| <= k < |h2|
      ensures Uncommitted(world, source, before, h2[k])
    {
      assert OnlyTouches(before, h2[k], parts);
      PartsAreUncommitted(world, source, before, h2[k], parts);
    }
  }

  /** The checks on the downloaded size and hash. */
  predicate RawFits(source: Source, size: nat, rawHash: Digest) {
    && (source.lifecycle.Verified? ==> source.actualSize == Some(size) && source.rawHash == Some(rawHash))
    && (source.expectedSize.Some? ==> source.expectedSize.value == size)
  }

  /** Matching the pins is matching them in the raw fields and in the processed fields. */
  lemma PinsSplit(source: Source, entry: Source, size: nat, rawHash: Digest)
    requires Extension(source.format).Some? && entry.processedHash.Some? && entry.transformation.Some?
    requires entry == VerifiedEntry(source, size, rawHash, entry.processedHash.value, entry.transformation.value)
    requires source.lifecycle.Verified? ==>
               source.rawPath == Some(RawPath(source)) && source.processedPath == Some(ProcessedPath(source))
    ensures RawFits(source, size, rawHash) ==>
              (MatchesPins(source, entry) <==>
                (source.lifecycle.Verified? ==>
                  && source.transformation == entry.transformation && source.processedHash == entry.processedHash
                  && source.transformationVersion == Some(TRANSFORMATION_VERSION)))
    ensures MatchesPins(source, entry) && (source.expectedSize.Some? ==> source.expectedSize.value == size) ==>
              RawFits(source, size, rawHash)
  {
  }

  /** Download into the raw `.part` file, hash it again and compare. */
  method FetchRawPart(fs: Storage, world: World, source: Source, response: Response)
    returns (r: Result<Received, Failure>)
    requires Injective(world) && Extension(source.format).Some? && Part(RawPath(source)) !in fs.disk
    modifies fs`disk, fs`history, fs`faults
    ensures WritesOnly(fs, Part(RawPath(source)))
    ensures r.Ok? ==>
              && response.Response? && IsFile(fs.disk, Part(RawPath(source)))
              && var body := Body(response.chunks);
                 && BytesOf(world, fs.disk[Part(RawPath(source))].content) == body
                 && r.value == Received(|body|, world.sha(body)) && 1 <= |body| <= source.maxDownloadBytes
                 && RawFits(source, |body|, world.sha(body))
                 && (fs.faithful ==> Fetchable(world, source, response))
    ensures r.Ok? ==> fs.faults == old(fs.faults)
    ensures r.Err? && fs.faithful && fs.faults == old(fs.faults) ==>
              !Fetchable(world, source, response)
                || !RawFits(source, |Body(response.chunks)|, world.sha(Body(response.chunks)))
  {
    hide Fetchable, Body;
    var rawPart := Part(RawPath(source));
    var download := DownloadToPartial(fs, world, source, rawPart, response);
    if download.Err? {
      return Err(download.error);
    }
    var reread := Sha256File(fs, world, rawPart);
    if reread.None? {
      return Err(HashUnreadable);
    }
    if reread.value != download.value.hash {
      return Err(HashDiffers);
    }
    var size := download.value.size;
    if source.lifecycle.Verified? && (Some(size) != source.actualSize || reread != source.rawHash) {
      return Err(PinnedRawDiffers);
    }
    if source.expectedSize.Some? && size != source.expectedSize.value {
      return Err(ExpectedSizeDiffers);
    }
    return Ok(Received(size, reread.value));
  }

  lemma RejectedRaw(world: World, source: Source, response: Response)
    requires Extension(source.format).Some?
    requires source.lifecycle.Verified? ==>
               source.rawPath == Some(RawPath(source)) && source.processedPath == Some(ProcessedPath(source))
    requires response.Response? ==>
               !Fetchable(world, source, response)
                 || !RawFits(source, |Body(response.chunks)|, world.sha(Body(response.chunks)))
    ensures !Preparable(world, source, response)
  {
  }

  lemma RejectedProcessed(world: World, source: Source, response: Response)
    requires Extension(source.format).Some? && response.Response?
    requires Transformed(world, source, Body(response.chunks)).None?
             || !MatchesPins(source, FetchedEntry(world, source, response))
    ensures !Preparable(world, source, response)
  {
  }

  /** The first half of the try block: fill and check the two `.part` files. */
  method FillParts(fs: Storage, world: World, source: Source, response: Response) returns (r: Result<Source, Failure>)
    requires Injective(world) && Extension(source.format).Some?
    requires RawPath(source) !in fs.disk && ProcessedPath(source) !in fs.disk
    requires Part(RawPath(source)) !in fs.disk && Part(ProcessedPath(source)) !in fs.disk
    requires source.lifecycle.Verified? ==>
               source.rawPath == Some(RawPath(source)) && source.processedPath == Some(ProcessedPath(source))
    modifies fs`disk, fs`history, fs`faults
    ensures OnlyTouches(old(fs.disk), fs.disk, Parts(source))
    ensures Part(RawPath(source)) in fs.disk ==> IsFile(fs.disk, Part(RawPath(source)))
    ensures Part(ProcessedPath(source)) in fs.disk ==> IsFile(fs.disk, Part(ProcessedPath(source)))
    ensures Trail(world, source, old(fs.disk), fs.history, |old(fs.history)|)
    ensures |old(fs.history)| <= |fs.history| && fs.history[..|old(fs.history)|] == old(fs.history)
    ensures r.Ok? ==>
              && response.Response?
              && PartsReady(world, source, old(fs.disk), fs.disk, r.value, fs.faithful, Body(response.chunks))
    ensures r.Ok? ==> fs.faults == old(fs.faults) && (fs.faithful ==> Fetchable(world, source, response))
    ensures r.Err? && fs.faithful && fs.faults == old(fs.faults) ==> !Preparable(world, source, response)
    ensures fs.faults >= old(fs.faults)
  {
    hide OnlyTouches, Uncommitted, Fetchable, Transformed, Preparable, MatchesPins, Trail, Body, Parts, Injective;
    var rawPart, processedPart := Part(RawPath(source)), Part(ProcessedPath(source));
    ghost var before, h0 := fs.disk, fs.history;
    TouchesNothing(before, Parts(source));
    var fetched := FetchRawPart(fs, world, source, response);
    ghost var d1, h1 := fs.disk, fs.history;
    PartStates(world, source, before, before, d1, h0, h1, rawPart);
    if fetched.Err? {
      if fs.faithful && fs.faults == old(fs.faults) {
        RejectedRaw(world, source, response);
      }
      return Err(fetched.error);
    }
    var Received(size, rawHash) := fetched.value;
    var written := WriteProcessedPartial(fs, world, source, rawPart, processedPart);
    PartStates(world, source, before, d1, fs.disk, h1, fs.history, processedPart);
    TrailGrows(world, source, before, h1, fs.history, |h0|);
    if written.Err? {
      if fs.faithful && fs.faults == old(fs.faults) {
        RejectedProcessed(world, source, response);
      }
      return Err(written.error);
    }
    var processed := Sha256File(fs, world, processedPart);
    if processed.None? {
      return Err(HashUnreadable);
    }
    var entry := VerifiedEntry(source, size, rawHash, processed.value, written.value);
    PinsSplit(source, entry, size, rawHash);
    if source.lifecycle.Verified? && (Some(written.value) != source.transformation || processed != source.processedHash
                                      || source.transformationVersion != Some(TRANSFORMATION_VERSION)) {
      if fs.faithful {
        RejectedProcessed(world, source, response);
      }
      return Err(PinnedProcessedDiffers);
    }
    return Ok(entry);
  }

  // ----- The commit

  /** The disk once the raw file, and then the processed file, has its final name. */
  ghost function RawRenamed(source: Source, d: Disk, readOnly: bool): Disk
    requires Extension(source.format).Some? && IsFile(d, Part(RawPath(source)))
  {
    (d - {Part(RawPath(source))})[RawPath(source) := File(d[Part(RawPath(source))].content, readOnly)]
  }

  ghost function BothRenamed(source: Source, d: Disk): Disk
    requires Extension(source.format).Some? && IsFile(d, Part(RawPath(source)))
             && IsFile(d, Part(ProcessedPath(source)))
  {
    var part := Part(ProcessedPath(source));
    (RawRenamed(source, d, true) - {part})[ProcessedPath(source) := d[part]]
  }

  lemma RawRenamedIsUncommitted(world: World, source: Source, before: Disk, d: Disk, entry: Source, faithful: bool,
                                body: Bytes, readOnly: bool)
    requires Extension(source.format).Some? && PartsReady(world, source, before, d, entry, faithful, body)
    requires RawPath(source) !in before && ProcessedPath(source) !in before
    ensures var now := RawRenamed(source, d, readOnly);
            && Uncommitted(world, source, before, now) && LeftBehind(source, before, now, CreatedIn(source, now), true)
            && (Part(ManifestPath) in now <==> Part(ManifestPath) in before)
  {
  }

  lemma BothRenamedIsUncommitted(world: World, source: Source, before: Disk, d: Disk, entry: Source, faithful: bool,
                                 body: Bytes)
    requires Extension(source.format).Some? && PartsReady(world, source, before, d, entry, faithful, body)
    requires RawPath(source) !in before && ProcessedPath(source) !in before
    ensures var now := BothRenamed(source, d);
            && Uncommitted(world, source, before, now) && LeftBehind(source, before, now, CreatedIn(source, now), true)
            && (Part(ManifestPath) in now <==> Part(ManifestPath) in before)
  {
  }

  lemma RenameStatesAreUncommitted(world: World, source: Source, before: Disk, d: Disk, entry: Source,
                                   faithful: bool, body: Bytes)
    requires Extension(source.format).Some? && PartsReady(world, source, before, d, entry, faithful, body)
    requires RawPath(source) !in before && ProcessedPath(source) !in before
    ensures IsFile(d, Part(RawPath(source))) && IsFile(d, Part(ProcessedPath(source)))
    ensures RawPath(source) !in d && ProcessedPath(source) !in d
    ensures forall s :: s in RenameStates(source, d) ==>
              && Uncommitted(world, source, before, s)
              && LeftBehind(source, before, s, CreatedIn(source, s), true)
              && (Part(ManifestPath) in s <==> Part(ManifestPath) in before)
  {
    hide RawRenamed, BothRenamed, Uncommitted, LeftBehind;
    PartsAreUncommitted(world, source, before, d, Parts(source));
    ReadyLeavesParts(world, source, before, d, entry, faithful, body);
    RawRenamedIsUncommitted(world, source, before, d, entry, faithful, body, d[Part(RawPath(source))].readOnly);
    RawRenamedIsUncommitted(world, source, before, d, entry, faithful, body, true);
    BothRenamedIsUncommitted(world, source, before, d, entry, faithful, body);
  }

  lemma ReadyLeavesParts(world: World, source: Source, before: Disk, d: Disk, entry: Source, faithful: bool,
                         body: Bytes)
    requires Extension(source.format).Some? && PartsReady(world, source, before, d, entry, faithful, body)
    requires RawPath(source) !in before && ProcessedPath(source) !in before
    ensures LeftBehind(source, before, d, CreatedIn(source, d), true)
  {
  }

  lemma TemporaryStaysUncommitted(world: World, source: Source, before: Disk, d: Disk, now: Disk,
                                  created: seq<Path>, cleaned: bool)
    requires Extension(source.format).Some? && Uncommitted(world, source, before, d)
    requires OnlyTouches(d, now, {Part(ManifestPath)})
    requires Part(ManifestPath) !in before || now == d
    ensures Uncommitted(world, source, before, now)
    ensures LeftBehind(source, before, d, created, true) && (cleaned ==> now == d) ==>
              LeftBehind(source, before, now, created, cleaned)
  {
  }

  /** With both files named and the manifest replaced, the run is committed. */
  lemma CommitPoint(world: World, manifest: Manifest, source: Source, before: Disk, d: Disk, entry: Source,
                    faithful: bool, body: Bytes)
    requires Extension(source.format).Some? && PartsReady(world, source, before, d, entry, faithful, body)
    requires RawPath(source) !in before && ProcessedPath(source) !in before
    requires ValidSource(entry) && ValidManifest(ReplaceSource(manifest, entry))
    ensures var updated := ReplaceSource(manifest, entry);
            Committed(world, manifest, source, entry, before,
                      BothRenamed(source, d)[ManifestPath := File(Document(updated, FileSize(updated)), false)])
  {
    hide CompactSize, FileSize, WithinSchema;
    var updated := ReplaceSource(manifest, entry);
    var now := BothRenamed(source, d)[ManifestPath := File(Document(updated, FileSize(updated)), false)];
    var expected := before[RawPath(source) := File(now[RawPath(source)].content, true)]
                          [ProcessedPath(source) := now[ProcessedPath(source)]]
                          [ManifestPath := File(Document(updated, FileSize(updated)), false)];
    assert now == expected;
  }

  /** The files a failed run has to delete: parts, finals it has created, and its own
      temporary manifest unless that is already gone. */
  ghost predicate LeftBehind(source: Source, before: Disk, now: Disk, created: seq<Path>, cleaned: bool)
    requires Extension(source.format).Some?
  {
    && (forall p :: p in created ==> p in {RawPath(source), ProcessedPath(source)})
    && forall p :: p in now && p !in before ==>
         || (IsFile(now, p) && (p in Parts(source) || p in created))
         || (!cleaned && p == Part(ManifestPath))
  }

  /** The two renames, with the raw file made read-only in between. */
  method RenameParts(fs: Storage, world: World, source: Source, ghost before: Disk)
    returns (r: Result<(), Failure>, created: seq<Path>)
    requires Extension(source.format).Some?
    requires IsFile(fs.disk, Part(RawPath(source))) && IsFile(fs.disk, Part(ProcessedPath(source)))
    requires RawPath(source) !in fs.disk && ProcessedPath(source) !in fs.disk
    requires forall d :: d in RenameStates(source, fs.disk) ==> Uncommitted(world, source, before, d)
    modifies fs`disk, fs`history, fs`faults
    ensures r.Ok? ==> fs.disk == BothRenamed(source, old(fs.disk)) && fs.faults == old(fs.faults)
    ensures fs.disk in RenameStates(source, old(fs.disk))
    ensures created == CreatedIn(source, fs.disk)
    ensures |old(fs.history)| <= |fs.history| && fs.history[..|old(fs.history)|] == old(fs.history)
    ensures forall k :: |old(fs.history)| <= k < |fs.history| ==> Uncommitted(world, source, before, fs.history[k])
    ensures r.Err? ==> fs.faults > old(fs.faults)
  {
    hide Uncommitted;
    ghost var d := fs.disk;
    var rawPath, processedPath := RawPath(source), ProcessedPath(source);
    var renamed := ReplaceNewFile(fs, Part(rawPath), rawPath);
    if renamed.Err? {
      return Err(renamed.error), [];
    }
    assert fs.disk == RawRenamed(source, d, d[Part(rawPath)].readOnly);
    var readOnly := fs.Chmod(rawPath, true);
    if !readOnly {
      return Err(DownloadFailed), [rawPath];
    }
    assert fs.disk == RawRenamed(source, d, true);
    renamed := ReplaceNewFile(fs, Part(processedPath), processedPath);
    if renamed.Err? {
      return Err(renamed.error), [rawPath];
    }
    assert fs.disk == BothRenamed(source, d);
    return Ok(()), [rawPath, processedPath];
  }

  /** The states the renames pass through. */
  ghost function RenameStates(source: Source, d: Disk): set<Disk>
    requires Extension(source.format).Some? && IsFile(d, Part(RawPath(source)))
             && IsFile(d, Part(ProcessedPath(source)))
  {
    {d, RawRenamed(source, d, d[Part(RawPath(source))].readOnly), RawRenamed(source, d, true), BothRenamed(source, d)}
  }

  /** `created_final_paths`, read off the disk. */
  ghost function CreatedIn(source: Source, d: Disk): seq<Path>
    requires Extension(source.format).Some?
  {
    (if RawPath(source) in d then [RawPath(source)] else []) +
    (if ProcessedPath(source) in d then [ProcessedPath(source)] else [])
  }

  /** The second half of the try block: the two renames and the manifest. */
  method CommitParts(fs: Storage, world: World, manifest: Manifest, source: Source, entry: Source,
                     ghost before: Disk, ghost body: Bytes)
    returns (r: Result<(), Failure>, created: seq<Path>, ghost cleaned: bool)
    requires Extension(source.format).Some? && PartsReady(world, source, before, fs.disk, entry, fs.faithful, body)
    requires RawPath(source) !in before && ProcessedPath(source) !in before
    requires ValidSource(entry) && ValidSources(manifest) && FindSource(manifest, entry.id).Some?
    modifies fs`disk, fs`history, fs`faults
    ensures r.Ok? ==> Committed(world, manifest, source, entry, before, fs.disk) && fs.faults == old(fs.faults)
                      && Part(ManifestPath) !in before && ValidManifest(ReplaceSource(manifest, entry))
    ensures r.Err? ==> Uncommitted(world, source, before, fs.disk)
                       && LeftBehind(source, before, fs.disk, created, cleaned)
    ensures |old(fs.history)| <= |fs.history| && fs.history[..|old(fs.history)|] == old(fs.history)
    ensures forall k :: |old(fs.history)| <= k < |fs.history| ==>
              Uncommitted(world, source, before, fs.history[k]) || (r.Ok? && fs.history[k] == fs.disk)
    ensures r.Err? && fs.faults == old(fs.faults) ==>
              Part(ManifestPath) in before || !ValidManifest(ReplaceSource(manifest, entry))
    ensures fs.faults >= old(fs.faults)
    ensures !cleaned ==> fs.faults > old(fs.faults)
  {
    hide CompactSize, FileSize, WithinSchema, Uncommitted, Committed, OnlyTouches, PartsReady, ValidSource,
         LeftBehind, RenameStates, BothRenamed, RawRenamed, CreatedIn;
    ghost var d := fs.disk;
    RenameStatesAreUncommitted(world, source, before, d, entry, fs.faithful, body);
    var renamed;
    renamed, created := RenameParts(fs, world, source, before);
    if renamed.Err? {
      return Err(renamed.error), created, true;
    }
    ghost var both, h := fs.disk, fs.history;
    var updated := ReplaceSource(manifest, entry);
    if !ValidManifest(updated) {
      return Err(DownloadFailed), created, true;
    }
    var written;
    written, cleaned := WriteManifestAtomically(fs, world, updated);
    assert Part(ManifestPath) in both <==> Part(ManifestPath) in before;
    forall k | |h| <= k < |fs.history| && OnlyTouches(both, fs.history[k], {Part(ManifestPath)})
      ensures Uncommitted(world, source, before, fs.history[k])
    {
      TemporaryStaysUncommitted(world, source, before, both, fs.history[k], created, cleaned);
    }
    HistoryKept(old(fs.history), h, fs.history);
    if written.Err? {
      TemporaryStaysUncommitted(world, source, before, both, fs.disk, created, cleaned);
      return Err(written.error), created, cleaned;
    }
    CommitPoint(world, manifest, source, before, d, entry, fs.faithful, body);
    return Ok(()), created, true;
  }

  lemma HistoryKept(h0: seq<Disk>, h1: seq<Disk>, h2: seq<Disk>)
    requires |h0| <= |h1| <= |h2| && h1[..|h0|] == h0 && h2[..|h1|] == h1
    ensures h2[..|h0|] == h0
    ensures forall k :: |h0| <= k < |h1| ==> h2[k] == h1[k]
  {
  }

  // ----- A whole run

  /** The source a run is about, if the manifest can be loaded and lists it. */
  function SourceOn(world: World, disk: Disk, id: string): (found: Option<Source>)
    ensures found.Some? ==> ManifestOn(world, disk).Ok? && found.value.id == id
    ensures found.Some? ==> ValidSource(found.value) && FindSource(ManifestOn(world, disk).value, id).Some?
  {
    match ManifestOn(world, disk)
    case Err(_) => None
    case Ok(manifest) =>
      match FindSource(manifest, id)
      case None => None
      case Some(i) => Some(manifest.sources[i])
  }

  lemma SourceFound(world: World, disk: Disk, id: string)
    ensures ManifestOn(world, disk).Err? ==> SourceOn(world, disk, id).None?
    ensures ManifestOn(world, disk).Ok? ==>
              var manifest := ManifestOn(world, disk).value;
              SourceOn(world, disk, id) ==
                match FindSource(manifest, id)
                case None => None
                case Some(i) => Some(manifest.sources[i])
  {
    hide ManifestOn, FindSource;
  }

  lemma LoadedIsValid(world: World, disk: Disk)
    ensures ManifestOn(world, disk).Ok? ==> ValidSources(ManifestOn(world, disk).value)
  {
    hide ValidSources, WithinSchema, CompactSize;
  }

  predicate RecordedPaths(source: Source) {
    && Extension(source.format).Some?
    && source.rawPath == Some(RawPath(source)) && source.processedPath == Some(ProcessedPath(source))
  }

  /** The manifest entry is verified and both files agree with it. */
  ghost predicate Recorded(world: World, source: Source, disk: Disk) {
    && source.lifecycle.Verified? && RecordedPaths(source)
    && RawAgrees(world, source, disk) && ProcessedAgrees(world, source, disk)
  }

  /** Neither final file nor part file is in the way. */
  predicate Unobstructed(source: Source, disk: Disk)
    requires Extension(source.format).Some?
  {
    && RawPath(source) !in disk && ProcessedPath(source) !in disk
    && Part(RawPath(source)) !in disk && Part(ProcessedPath(source)) !in disk
  }

  predicate Startable(source: Source, disk: Disk, allowDownload: bool, preflightAllowed: bool) {
    && (source.lifecycle.Planned? || (source.lifecycle.Verified? && RecordedPaths(source)))
    && allowDownload && preflightAllowed
    && AuthorizationFailure(source).None?
    && Unobstructed(source, disk)
  }

  lemma NotStartable(source: Source, disk: Disk, allowDownload: bool, preflightAllowed: bool)
    ensures Startable(source, disk, allowDownload, preflightAllowed) ==> Extension(source.format).Some?
  {
  }

  /** When a run without faults succeeds. */
  ghost predicate Acceptable(world: World, disk: Disk, id: string, allowDownload: bool, preflightAllowed: bool,
                             response: Response) {
    && SourceOn(world, disk, id).Some?
    && var source := SourceOn(world, disk, id).value;
       Recorded(world, source, disk) ||
       (Startable(source, disk, allowDownload, preflightAllowed) &&
        Downloadable(world, ManifestOn(world, disk).value, source, disk, response))
  }

  ghost predicate CommittedRun(world: World, id: string, before: Disk, now: Disk, entry: Source) {
    && SourceOn(world, before, id).Some?
    && var source := SourceOn(world, before, id).value;
       Extension(source.format).Some? && Committed(world, ManifestOn(world, before).value, source, entry, before, now)
  }

  /** The states in which a run may be interrupted: nothing happened, nothing is
      committed yet, or everything is. */
  ghost predicate Survivable(world: World, id: string, before: Disk, now: Disk) {
    || now == before
    || (exists entry :: CommittedRun(world, id, before, now, entry))
    || (SourceOn(world, before, id).Some?
        && Extension(SourceOn(world, before, id).value.format).Some?
        && (SourceOn(world, before, id).value.lifecycle.Verified? ==> RecordedPaths(SourceOn(world, before, id).value))
        && RawPath(SourceOn(world, before, id).value) !in before
        && ProcessedPath(SourceOn(world, before, id).value) !in before
        && Uncommitted(world, SourceOn(world, before, id).value, before, now))
  }

  /** `load_source_manifest`. */
  method LoadSourceManifest(fs: Storage, world: World) returns (r: Result<Manifest, Failure>)
    modifies fs`faults
    ensures fs.faults >= old(fs.faults)
    ensures fs.faults == old(fs.faults) ==> r == ManifestOn(world, fs.disk)
    ensures r.Ok? ==> r == ManifestOn(world, fs.disk) && fs.faults == old(fs.faults)
  {
    if IsFile(fs.disk, ManifestPath) {
      var bytes := BytesOf(world, fs.disk[ManifestPath].content);
      var read := fs.ReadBlock(ManifestPath, bytes, 0, |bytes| + 1);
      if read.None? {
        return Err(ManifestInvalid);
      }
    }
    return ManifestOn(world, fs.disk);
  }

  /** `_verify_recorded_source`. */
  method VerifyRecordedSource(fs: Storage, world: World, source: Source) returns (r: Result<Prepared, Failure>)
    requires source.lifecycle.Verified? && ValidSource(source) && RecordedPaths(source)
    requires IsFile(fs.disk, RawPath(source)) && IsFile(fs.disk, ProcessedPath(source))
    modifies fs`faults
    ensures r.Ok? ==> Recorded(world, source, fs.disk) && r.value == ResultFromSource(source, true)
    ensures r.Ok? ==> fs.faults == old(fs.faults)
    ensures r.Err? && fs.faults == old(fs.faults) ==> !Recorded(world, source, fs.disk)
    ensures fs.faults >= old(fs.faults)
  {
    var rawPath, processedPath := RawPath(source), ProcessedPath(source);
    if Some(|BytesOf(world, fs.disk[rawPath].content)|) != source.actualSize {
      return Err(VerifiedHashDiffers);
    }
    var rawHash := Sha256File(fs, world, rawPath);
    if rawHash.None? {
      return Err(HashUnreadable);
    }
    if rawHash != source.rawHash {
      return Err(VerifiedHashDiffers);
    }
    var processedHash := Sha256File(fs, world, processedPath);
    if processedHash.None? {
      return Err(HashUnreadable);
    }
    if processedHash != source.processedHash {
      return Err(VerifiedHashDiffers);
    }
    return Ok(ResultFromSource(source, true));
  }

  lemma FilledFacts(world: World, source: Source, before: Disk, now: Disk, history: seq<Disk>, from: nat)
    requires Extension(source.format).Some? && Unobstructed(source, before)
    requires OnlyTouches(before, now, Parts(source))
    requires Part(RawPath(source)) in now ==> IsFile(now, Part(RawPath(source)))
    requires Part(ProcessedPath(source)) in now ==> IsFile(now, Part(ProcessedPath(source)))
    requires Trail(world, source, before, history, from)
    ensures Uncommitted(world, source, before, now) && LeftBehind(source, before, now, [], true)
    ensures forall k :: from <= k < |history| ==> Uncommitted(world, source, before, history[k])
  {
  }

  lemma ReadyEntry(world: World, source: Source, before: Disk, now: Disk, entry: Source, faithful: bool, body: Bytes,
                   response: Response)
    requires AuthorizationFailure(source).None? && ValidSource(source)
    requires PartsReady(world, source, before, now, entry, faithful, body)
    requires response.Response? && body == Body(response.chunks)
    ensures ValidSource(entry) && entry.id == source.id
    ensures faithful && Fetchable(world, source, response) ==>
              Preparable(world, source, response) && entry == FetchedEntry(world, source, response)
  {
  }

  /** When every deletion worked, cleaning up restores the disk. */
  lemma CleanedUp(world: World, source: Source, before: Disk, d: Disk, now: Disk, h1: seq<Disk>, h2: seq<Disk>,
                  created: seq<Path>, cleaned: bool, removed: bool)
    requires Extension(source.format).Some? && Unobstructed(source, before)
    requires Uncommitted(world, source, before, d) && LeftBehind(source, before, d, created, cleaned)
    requires var paths := [Part(RawPath(source)), Part(ProcessedPath(source))] + created;
             && Shrinks(d, now, set p | p in paths) && NewStatesShrink(h1, h2, d, set p | p in paths)
             && (removed ==> forall p :: p in paths ==> !IsFile(now, p))
    ensures Uncommitted(world, source, before, now)
    ensures cleaned && removed ==> now == before
    ensures forall k :: |h1| <= k < |h2| ==> Uncommitted(world, source, before, h2[k])
  {
    var paths := [Part(RawPath(source)), Part(ProcessedPath(source))] + created;
    var ps := set p | p in paths;
    forall p | p in ps
      ensures p !in before
    {
      assert p in paths;
    }
    ShrinkingStaysUncommitted(world, source, before, d, now, ps);
    forall k | |h1| <= k < |h2|
      ensures Uncommitted(world, source, before, h2[k])
    {
      ShrinkingStaysUncommitted(world, source, before, d, h2[k], ps);
    }
    if cleaned && removed {
      NothingLeft(source, before, d, now, created, ps);
    }
  }

  lemma NothingLeft(source: Source, before: Disk, d: Disk, now: Disk, created: seq<Path>, ps: set<Path>)
    requires Extension(source.format).Some?
    requires forall p :: p in before ==> p in d && d[p] == before[p]
    requires LeftBehind(source, before, d, created, true)
    requires Shrinks(d, now, ps) && forall p :: p in ps ==> p !in before && !IsFile(now, p)
    requires forall p :: p in ps <==> p in Parts(source) || p in created
    ensures now == before
  {
  }

  /** The cleanup of a run that has failed. */
  method CleanUpFailed(fs: Storage, world: World, source: Source, created: seq<Path>, ghost before: Disk,
                       ghost known: bool)
    returns (ghost cleaned: bool)
    requires Extension(source.format).Some? && Unobstructed(source, before)
    requires Uncommitted(world, source, before, fs.disk) && LeftBehind(source, before, fs.disk, created, known)
    modifies fs`disk, fs`history, fs`faults
    ensures Uncommitted(world, source, before, fs.disk) && (cleaned ==> fs.disk == before)
    ensures |old(fs.history)| <= |fs.history| && fs.history[..|old(fs.history)|] == old(fs.history)
    ensures forall k :: |old(fs.history)| <= k < |fs.history| ==> Uncommitted(world, source, before, fs.history[k])
    ensures fs.faults >= old(fs.faults) && (!cleaned && known ==> fs.faults > old(fs.faults))
  {
    hide Uncommitted, LeftBehind, Shrinks;
    ghost var d, h := fs.disk, fs.history;
    ghost var removed := CleanupOwnedFiles(fs, [Part(RawPath(source)), Part(ProcessedPath(source))] + created);
    CleanedUp(world, source, before, d, fs.disk, h, fs.history, created, known, removed);
    cleaned := known && removed;
  }

  /** The try block and its cleanup. */
  method DownloadAndCommit(fs: Storage, world: World, manifest: Manifest, source: Source, response: Response)
    returns (r: Result<Source, Failure>, ghost cleaned: bool)
    requires Injective(world) && AuthorizationFailure(source).None? && Unobstructed(source, fs.disk)
    requires ValidSources(manifest) && ValidSource(source) && FindSource(manifest, source.id).Some?
    requires source.lifecycle.Verified? ==> RecordedPaths(source)
    modifies fs`disk, fs`history, fs`faults
    ensures r.Ok? ==> Committed(world, manifest, source, r.value, old(fs.disk), fs.disk)
    ensures r.Err? ==> Uncommitted(world, source, old(fs.disk), fs.disk) && (cleaned ==> fs.disk == old(fs.disk))
    ensures |old(fs.history)| <= |fs.history| && fs.history[..|old(fs.history)|] == old(fs.history)
    ensures forall k :: |old(fs.history)| <= k < |fs.history| ==>
              Uncommitted(world, source, old(fs.disk), fs.history[k]) || (r.Ok? && fs.history[k] == fs.disk)
    ensures fs.faults >= old(fs.faults)
    ensures fs.faithful && fs.faults == old(fs.faults) ==>
              (r.Ok? <==> Downloadable(world, manifest, source, old(fs.disk), response))
    ensures fs.faithful && r.Ok? ==>
              Preparable(world, source, response) && r.value == FetchedEntry(world, source, response)
    ensures !cleaned ==> fs.faults > old(fs.faults)
  {
    hide Uncommitted, Committed, OnlyTouches, PartsReady, LeftBehind, Trail, Preparable, Shrinks, ValidSource, Body,
         ReplaceSource, FindSource, Injective, AuthorizationFailure, ValidSources, ValidManifest;
    AuthorizedHasExtension(source);
    ghost var before, h0 := fs.disk, fs.history;
    var filled := FillParts(fs, world, source, response);
    ghost var h1 := fs.history;
    FilledFacts(world, source, before, fs.disk, fs.history, |h0|);
    var failure, created: seq<Path>;
    created, cleaned := [], true;
    if filled.Ok? {
      var entry := filled.value;
      ReadyEntry(world, source, before, fs.disk, entry, fs.faithful, Body(response.chunks), response);
      var committed;
      committed, created, cleaned := CommitParts(fs, world, manifest, source, entry, before, Body(response.chunks));
      HistoryKept(h0, h1, fs.history);
      if committed.Ok? {
        return Ok(entry), true;
      }
      failure := committed.error;
    } else {
      failure := filled.error;
    }
    ghost var h := fs.history;
    cleaned := CleanUpFailed(fs, world, source, created, before, cleaned);
    HistoryKept(h0, h, fs.history);
    return Err(failure), cleaned;
  }

  lemma UncommittedKeeps(world: World, source: Source, before: Disk, now: Disk)
    requires Extension(source.format).Some? && Uncommitted(world, source, before, now)
    ensures forall p :: p in before ==> p in now && now[p] == before[p]
  {
  }

  lemma CommittedIsComplete(world: World, manifest: Manifest, source: Source, entry: Source, before: Disk, now: Disk)
    requires Extension(source.format).Some? && Committed(world, manifest, source, entry, before, now)
    ensures HasRaw(entry) && HasProcessed(entry)
  {
  }

  /** The manifest lists the source as verified, and both files agree with the entry. */
  ghost predicate IsRecorded(world: World, id: string, disk: Disk) {
    SourceOn(world, disk, id).Some? && Recorded(world, SourceOn(world, disk, id).value, disk)
  }

  /** What a run reports that found the files its entry records. */
  ghost predicate Reused(world: World, id: string, disk: Disk, result: Prepared) {
    && IsRecorded(world, id, disk)
    && var source := SourceOn(world, disk, id).value;
       HasRaw(source) && HasProcessed(source) && result == ResultFromSource(source, true)
  }

  /** What a run reports that committed an entry. */
  ghost predicate NewlyRecorded(world: World, id: string, before: Disk, now: Disk, entry: Source, result: Prepared) {
    && CommittedRun(world, id, before, now, entry)
    && HasRaw(entry) && HasProcessed(entry) && result == ResultFromSource(entry, false)
  }

  /** The managed file of a source in one of the two areas. */
  ghost predicate IsManagedFile(path: Path, area: Area, extension: string, source: Source, disk: Disk) {
    path == Managed(area, source.datasetVersion, source.id, extension) && IsFile(disk, path)
  }

  ghost predicate IsExtension(format: Format, extension: string) {
    || (format.Pdf? && extension == ".pdf") || (format.Docx? && extension == ".docx")
    || (format.Xlsx? && extension == ".xlsx") || (format.Csv? && extension == ".csv")
    || (format.Png? && extension == ".png") || (format.Jpeg? && extension == ".jpg")
  }

  /** The raw file has the extension of its format; what an image is converted to is a PDF. */
  ghost predicate AreManagedFiles(raw: Path, processed: Path, source: Source, disk: Disk) {
    exists extension :: IsExtension(source.format, extension) && IsManagedFile(raw, RawArea, extension, source, disk)
                        && var changed := if source.format.Png? || source.format.Jpeg? then ".pdf" else extension;
                           IsManagedFile(processed, ProcessedArea, changed, source, disk)
  }

  /** What a success reports is what is on the disk. */
  ghost predicate ReportsDisk(world: World, id: string, before: Disk, now: Disk, r: Prepared) {
    && SourceOn(world, before, id).Some?
    && var source := SourceOn(world, before, id).value;
    && source.id == id && r.sourceId == id
    && AreManagedFiles(r.rawPath, r.processedPath, source, now)
    && r.actualSize == |BytesOf(world, now[r.rawPath].content)|
    && r.rawHash == world.sha(BytesOf(world, now[r.rawPath].content))
    && r.processedHash == world.sha(BytesOf(world, now[r.processedPath].content))
    && (r.reused <==> IsRecorded(world, id, before))
    && (!r.reused ==>
          && Approved(source)
          && (r.transformation.ImageToPdf? <==> source.format.Png? || source.format.Jpeg?)
          && (r.transformation.IdentityCopy? <==> !source.format.Png? && !source.format.Jpeg?)
          && r.transformationVersion == "m2-eval-transform-v1"
          && (source.expectedSize.Some? ==> r.actualSize == source.expectedSize.value))
  }

  /** A source that was verified before is reported with everything its entry had pinned. */
  ghost predicate ReportsPins(source: Source, r: Prepared) {
    source.lifecycle.Verified? ==>
      && source.actualSize == Some(r.actualSize) && source.rawHash == Some(r.rawHash)
      && source.processedHash == Some(r.processedHash) && source.rawPath == Some(r.rawPath)
      && source.processedPath == Some(r.processedPath) && source.transformation == Some(r.transformation)
      && source.transformationVersion == Some(r.transformationVersion)
  }

  /** The raw file is what was received, and the processed file is its copy or its conversion. */
  ghost predicate HoldsResponse(world: World, source: Source, now: Disk, response: Response, r: Prepared) {
    && IsFile(now, r.rawPath) && IsFile(now, r.processedPath) && response.Response?
    && BytesOf(world, now[r.rawPath].content) == Body(response.chunks)
    && (if source.format.Png? || source.format.Jpeg?
        then world.convert(Body(response.chunks)) == Some(BytesOf(world, now[r.processedPath].content))
        else BytesOf(world, now[r.processedPath].content) == Body(response.chunks))
  }

  lemma ManagedFilesAre(source: Source, disk: Disk)
    requires Extension(source.format).Some? && IsFile(disk, RawPath(source)) && IsFile(disk, ProcessedPath(source))
    ensures AreManagedFiles(RawPath(source), ProcessedPath(source), source, disk)
  {
    var extension := Extension(source.format).value;
    assert IsExtension(source.format, extension) && IsManagedFile(RawPath(source), RawArea, extension, source, disk);
  }

  /** What a commit records: the source is verified with what was observed, and is otherwise as before. */
  ghost predicate OnlyObserved(source: Source, entry: Source) {
    && entry.lifecycle.Verified? && entry.actualSize.Some? && entry.expectedSize == entry.actualSize
    && source == entry.(lifecycle := source.lifecycle, expectedSize := source.expectedSize,
                        actualSize := source.actualSize, rawHash := source.rawHash,
                        processedHash := source.processedHash, rawPath := source.rawPath,
                        processedPath := source.processedPath, transformation := source.transformation,
                        transformationVersion := source.transformationVersion)
  }

  lemma CommittedObserves(world: World, id: string, before: Disk, now: Disk, entry: Source)
    requires CommittedRun(world, id, before, now, entry)
    ensures OnlyObserved(SourceOn(world, before, id).value, entry)
  {
    hide ManifestOn, FindSource, ValidSource, ValidManifest, ReplaceSource, FileSize;
  }

  lemma ReusedReports(world: World, id: string, disk: Disk, r: Prepared)
    requires Reused(world, id, disk, r)
    ensures ReportsDisk(world, id, disk, disk, r) && ReportsPins(SourceOn(world, disk, id).value, r)
  {
    hide ManifestOn, FindSource, ValidSource, AreManagedFiles;
    ManagedFilesAre(SourceOn(world, disk, id).value, disk);
  }

  lemma CommittedReports(world: World, id: string, before: Disk, now: Disk, entry: Source, r: Prepared)
    requires NewlyRecorded(world, id, before, now, entry, r)
             && AuthorizationFailure(SourceOn(world, before, id).value).None?
    ensures ReportsDisk(world, id, before, now, r) && ReportsPins(SourceOn(world, before, id).value, r)
  {
    hide ManifestOn, FindSource, ValidSource, ValidManifest, ReplaceSource, FileSize, AuthorizationFailure,
         AreManagedFiles;
    AuthorizedExactly(SourceOn(world, before, id).value);
    ManagedFilesAre(SourceOn(world, before, id).value, now);
  }

  lemma FetchedHolds(world: World, id: string, before: Disk, now: Disk, entry: Source, response: Response, r: Prepared)
    requires Injective(world) && NewlyRecorded(world, id, before, now, entry, r)
    requires var source := SourceOn(world, before, id).value;
             Preparable(world, source, response) && entry == FetchedEntry(world, source, response)
    ensures HoldsResponse(world, SourceOn(world, before, id).value, now, response, r)
  {
    hide ManifestOn, FindSource, ValidSource, ValidManifest, ReplaceSource, FileSize, Body;
  }

  lemma VerifiedIsComplete(source: Source)
    requires ValidSource(source) && source.lifecycle.Verified?
    ensures HasRaw(source) && HasProcessed(source)
  {
  }

  /** `prepare_evaluation_source`. */
  method PrepareEvaluationSource(fs: Storage, world: World, id: string, allowDownload: bool, preflightAllowed: bool,
                                 response: Response)
    returns (result: Result<Prepared, Failure>, ghost cleaned: bool)
    requires Injective(world)
    modifies fs`disk, fs`history, fs`faults
    // A run that succeeds has either found the files it recorded, or committed.
    ensures result.Ok? ==>
              || (exists entry :: NewlyRecorded(world, id, old(fs.disk), fs.disk, entry, result.value)
                                  && OnlyObserved(SourceOn(world, old(fs.disk), id).value, entry))
              || (fs.disk == old(fs.disk) && Reused(world, id, fs.disk, result.value))
    // What it reports is what the disk holds, and that is what was received.
    ensures result.Ok? ==>
              && ReportsDisk(world, id, old(fs.disk), fs.disk, result.value)
              && ReportsPins(SourceOn(world, old(fs.disk), id).value, result.value)
              && (fs.faithful && !result.value.reused ==>
                    HoldsResponse(world, SourceOn(world, old(fs.disk), id).value, fs.disk, response, result.value))
    // A run that fails has changed nothing that existed, and leaves nothing new if its deletions worked.
    ensures result.Err? ==> forall p :: p in old(fs.disk) ==> p in fs.disk && fs.disk[p] == old(fs.disk)[p]
    ensures result.Err? && cleaned ==> fs.disk == old(fs.disk)
    // Wherever the process stops, the disk is in a survivable state.
    ensures Survivable(world, id, old(fs.disk), fs.disk)
    ensures |old(fs.history)| <= |fs.history| && fs.history[..|old(fs.history)|] == old(fs.history)
    ensures forall k :: |old(fs.history)| <= k < |fs.history| ==> Survivable(world, id, old(fs.disk), fs.history[k])
    // Without faults it succeeds exactly when it should, and reuses what is recorded.
    ensures fs.faithful && fs.faults == old(fs.faults) ==>
              (result.Ok? <==> Acceptable(world, old(fs.disk), id, allowDownload, preflightAllowed, response))
    ensures IsRecorded(world, id, old(fs.disk)) ==>
              && fs.disk == old(fs.disk)
              && (fs.faults == old(fs.faults) ==> result.Ok? && Reused(world, id, fs.disk, result.value))
    ensures !cleaned ==> fs.faults > old(fs.faults)
  {
    hide Committed, Uncommitted, Downloadable, Injective, ManifestOn, FindSource, ValidSource, AuthorizationFailure,
         SourceOn, ReportsDisk, ReportsPins, HoldsResponse, Preparable, OnlyObserved;
    cleaned := true;
    SourceFound(world, fs.disk, id);
    var loaded := LoadSourceManifest(fs, world);
    if loaded.Err? {
      return Err(loaded.error), true;
    }
    var manifest := loaded.value;
    LoadedIsValid(world, fs.disk);
    var found := FindSource(manifest, id);
    if found.None? {
      return Err(NotAllowListed), true;
    }
    var source := manifest.sources[found.value];
    AuthorizedHasExtension(source);
    if Extension(source.format).None? {
      return Err(FormatNotSelected), true;
    }
    var rawPath, processedPath := RawPath(source), ProcessedPath(source);
    if source.lifecycle.Verified? {
      if !RecordedPaths(source) {
        return Err(RecordedPathInconsistent), true;
      }
      VerifiedIsComplete(source);
      if IsFile(fs.disk, rawPath) && IsFile(fs.disk, processedPath) {
        result := VerifyRecordedSource(fs, world, source);
        if result.Ok? {
          ReusedReports(world, id, fs.disk, result.value);
        }
        return result, true;
      }
      if rawPath in fs.disk || processedPath in fs.disk {
        return Err(PartlyPresent), true;
      }
    } else if !source.lifecycle.Planned? {
      return Err(NotPreparable), true;
    }
    if !allowDownload {
      return Err(DownloadNotAllowed), true;
    }
    if AuthorizationFailure(source).Some? {
      return Err(AuthorizationFailure(source).value), true;
    }
    if rawPath in fs.disk || processedPath in fs.disk {
      return Err(ExistingConflict), true;
    }
    if !preflightAllowed {
      return Err(PreflightRejected), true;
    }
    var made := fs.MakeDirectories();
    if !made {
      return Err(UncaughtOsError), true;
    }
    if Part(rawPath) in fs.disk || Part(processedPath) in fs.disk {
      return Err(ExistingConflict), true;
    }
    var prepared;
    prepared, cleaned := DownloadAndCommit(fs, world, manifest, source, response);
    if prepared.Err? {
      UncommittedKeeps(world, source, old(fs.disk), fs.disk);
      return Err(prepared.error), cleaned;
    }
    CommittedIsComplete(world, manifest, source, prepared.value, old(fs.disk), fs.disk);
    result := Ok(ResultFromSource(prepared.value, false));
    assert NewlyRecorded(world, id, old(fs.disk), fs.disk, prepared.value, result.value);
    CommittedReports(world, id, old(fs.disk), fs.disk, prepared.value, result.value);
    CommittedObserves(world, id, old(fs.disk), fs.disk, prepared.value);
    if fs.faithful {
      FetchedHolds(world, id, old(fs.disk), fs.disk, prepared.value, response, result.value);
    }
    cleaned := true;
  }
}
