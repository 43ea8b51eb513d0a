/** The steps of scripts/prepare_m2_cross_border_eval.py: bounded download, hashing,
    copying, renaming, the atomic manifest write and the cleanup of owned files. */
module PreparationSteps {
  import opened FileSystem
  import opened ManifestSize
  import opened Options
  import opened SourceManifest

  const CHUNK_SIZE: nat := 65536

  datatype Failure =
    | ManifestInvalid | ManifestTooLarge | NotAllowListed | FormatNotSelected | RecordedPathInconsistent
    | ExistingConflict | PartlyPresent | NotPreparable | DownloadNotAllowed | LicenseNotApproved
    | VersionNotPinned | KindNotApproved | PreflightRejected | UncaughtOsError
    | Redirected | BadStatus | DeclaredSizeInvalid | DeclaredSizeTooLarge | ContentTypeMismatch
    | StreamTooLarge | EmptyDownload | DeclaredSizeDiffers | SignatureMismatch | DownloadFailed
    | HashUnreadable | HashDiffers | PinnedRawDiffers | ExpectedSizeDiffers | ProcessedTooLarge
    | ConversionFailed | PinnedProcessedDiffers | ManifestUpdateFailed | VerifiedHashDiffers

  /** Libraries and configuration the script relies on. */
  datatype World = World(
    sha: Bytes -> Digest,
    encode: (Manifest, nat) -> Bytes,
    signatureOk: (Format, Bytes) -> bool,
    convert: Bytes -> Option<Bytes>)

  /** SHA-256 is taken to be injective. */
  ghost predicate Injective(world: World) {
    forall a, b :: world.sha(a) == world.sha(b) ==> a == b
  }

  function BytesOf(world: World, content: Content): Bytes {
    match content
    case Blob(data) => data
    case Document(manifest, size) => world.encode(manifest, size)
  }

  datatype DeclaredLength = Undeclared | Unparsable | Declared(length: int)

  /** What the server answers. An interrupted stream fails after its chunks. */
  datatype Response =
    | Unreachable
    | Response(status: int, declared: DeclaredLength, contentTypeOk: bool, chunks: seq<Bytes>, interrupted: bool)

  function Body(chunks: seq<Bytes>): Bytes {
    if chunks == [] then [] else Body(chunks[..|chunks| - 1]) + chunks[|chunks| - 1]
  }

  lemma BodyPrefix(chunks: seq<Bytes>, i: nat)
    requires i < |chunks|
    ensures Body(chunks[..i + 1]) == Body(chunks[..i]) + chunks[i]
  {
    assert chunks[..i + 1][..i] == chunks[..i];
  }

  lemma {:induction false} BodyGrows(chunks: seq<Bytes>, i: nat)
    requires i <= |chunks|
    ensures |Body(chunks[..i])| <= |Body(chunks)|
    decreases |chunks| - i
  {
    if i < |chunks| {
      BodyPrefix(chunks, i);
      BodyGrows(chunks, i + 1);
    } else {
      assert chunks[..i] == chunks;
    }
  }

  /** The answers that a download accepts. */
  predicate Fetchable(world: World, source: Source, response: Response) {
    && response.Response?
    && response.status == 200
    && !response.declared.Unparsable?
    && (response.declared.Declared? ==> 1 <= response.declared.length <= source.maxDownloadBytes)
    && response.contentTypeOk
    && !response.interrupted
    && 1 <= |Body(response.chunks)| <= source.maxDownloadBytes
    && (response.declared.Declared? ==> response.declared.length == |Body(response.chunks)|)
    && world.signatureOk(source.format, Body(response.chunks))
  }

  datatype Received = Received(size: nat, hash: Digest)

  /** The streaming hash read back from a file. */
  method Sha256File(fs: Storage, world: World, path: Path) returns (digest: Option<Digest>)
    modifies fs`faults
    ensures digest.Some? ==>
              && IsFile(fs.disk, path) && fs.faults == old(fs.faults)
              && digest.value == world.sha(BytesOf(world, fs.disk[path].content))
    ensures digest.None? && IsFile(fs.disk, path) ==> fs.faults > old(fs.faults)
    ensures fs.faults >= old(fs.faults)
  {
    if !IsFile(fs.disk, path) {
      return None;
    }
    var bytes := BytesOf(world, fs.disk[path].content);
    var hashed: Bytes := [];
    while true
      invariant |hashed| <= |bytes| && hashed == bytes[..|hashed|]
      invariant fs.faults == old(fs.faults)
      decreases |bytes| - |hashed|
    {
      var block := fs.ReadBlock(path, bytes, |hashed|, CHUNK_SIZE);
      if block.None? {
        return None;
      }
      if block.value == [] {
        assert hashed == bytes;
        break;
      }
      hashed := hashed + block.value;
    }
    digest := Some(world.sha(hashed));
  }

  /** What a step that writes the new file `target` leaves behind. */
  twostate predicate WritesOnly(fs: Storage, target: Path)
    reads fs
  {
    && OnlyTouches(old(fs.disk), fs.disk, {target})
    && NewStatesTouch(old(fs.history), fs.history, old(fs.disk), {target})
    && (target in old(fs.disk) ==> fs.disk == old(fs.disk))
    && (target in fs.disk && target !in old(fs.disk) ==> IsFile(fs.disk, target))
    && fs.faults >= old(fs.faults)
  }

  /** The streaming loop of `_download_to_partial` over an open destination. */
  method StreamToFile(fs: Storage, target: Path, chunks: seq<Bytes>, maxBytes: nat) returns (r: Result<nat, Failure>)
    requires IsFile(fs.disk, target) && fs.disk[target].content == Blob([])
    modifies fs`disk, fs`history, fs`faults
    ensures OnlyTouches(old(fs.disk), fs.disk, {target})
    ensures NewStatesTouch(old(fs.history), fs.history, old(fs.disk), {target})
    ensures IsFile(fs.disk, target) && fs.disk[target].content.Blob?
    ensures r.Ok? ==>
              && r.value == |Body(chunks)| <= maxBytes && fs.faults == old(fs.faults)
              && (fs.faithful ==> fs.disk[target].content.data == Body(chunks))
    ensures r.Err? && fs.faults == old(fs.faults) ==> |Body(chunks)| > maxBytes
    ensures fs.faults >= old(fs.faults)
  {
    hide OnlyTouches, NewStatesTouch;
    UpdateTouches(fs.disk, target, fs.disk[target], fs.history);
    ghost var received: Bytes := [];
    var actualSize := 0;
    for i := 0 to |chunks|
      invariant received == Body(chunks[..i]) && actualSize == |received| <= maxBytes
      invariant OnlyTouches(old(fs.disk), fs.disk, {target})
      invariant NewStatesTouch(old(fs.history), fs.history, old(fs.disk), {target})
      invariant IsFile(fs.disk, target) && fs.disk[target].content.Blob?
      invariant fs.faithful ==> fs.disk[target].content.data == received
      invariant fs.faults == old(fs.faults)
    {
      var chunk := chunks[i];
      BodyPrefix(chunks, i);
      if chunk == [] {
        assert received + chunk == received;
        continue;
      }
      actualSize := actualSize + |chunk|;
      if actualSize > maxBytes {
        BodyGrows(chunks, i + 1);
        return Err(StreamTooLarge);
      }
      ghost var disk, history := fs.disk, fs.history;
      var written := fs.Append(target, chunk);
      TouchesAgain(old(fs.disk), disk, fs.disk, old(fs.history), history, fs.history, {target});
      if !written {
        return Err(DownloadFailed);
      }
      received := received + chunk;
    }
    assert chunks[..|chunks|] == chunks;
    return Ok(actualSize);
  }

  /** `_download_to_partial`. */
  method DownloadToPartial(fs: Storage, world: World, source: Source, target: Path, response: Response)
    returns (r: Result<Received, Failure>)
    modifies fs`disk, fs`history, fs`faults
    ensures WritesOnly(fs, target)
    ensures r.Ok? ==>
              && response.Response?
              && r.value.size == |Body(response.chunks)| && 1 <= r.value.size <= source.maxDownloadBytes
              && r.value.hash == world.sha(Body(response.chunks))
              && target !in old(fs.disk) && IsFile(fs.disk, target) && fs.disk[target].content.Blob?
              && (fs.faithful ==>
                    fs.disk[target].content.data == Body(response.chunks) && Fetchable(world, source, response))
              && fs.faults == old(fs.faults)
    ensures r.Err? && fs.faithful && target !in old(fs.disk) && fs.faults == old(fs.faults) ==>
              !Fetchable(world, source, response)
  {
    hide OnlyTouches, NewStatesTouch, Body;
    UpdateTouches(fs.disk, target, File(Blob([]), false), fs.history);
    if response.Unreachable? {
      return Err(DownloadFailed);
    }
    if 300 <= response.status < 400 {
      return Err(Redirected);
    }
    if response.status != 200 {
      return Err(BadStatus);
    }
    if response.declared.Unparsable? || (response.declared.Declared? && response.declared.length < 1) {
      return Err(DeclaredSizeInvalid);
    }
    if response.declared.Declared? && response.declared.length > source.maxDownloadBytes {
      return Err(DeclaredSizeTooLarge);
    }
    if !response.contentTypeOk {
      return Err(ContentTypeMismatch);
    }
    var created := fs.CreateExclusive(target);
    if !created {
      return Err(DownloadFailed);
    }
    ghost var disk, history := fs.disk, fs.history;
    var streamed := StreamToFile(fs, target, response.chunks, source.maxDownloadBytes);
    TouchesAgain(old(fs.disk), disk, fs.disk, old(fs.history), history, fs.history, {target});
    if streamed.Err? {
      return Err(streamed.error);
    }
    if response.interrupted {
      return Err(DownloadFailed);
    }
    var actualSize := streamed.value;
    if actualSize == 0 {
      return Err(EmptyDownload);
    }
    if response.declared.Declared? && actualSize != response.declared.length {
      return Err(DeclaredSizeDiffers);
    }
    var bytes := fs.disk[target].content.data;
    var prefix := fs.ReadBlock(target, bytes, 0, 8);
    if prefix.None? {
      return Err(DownloadFailed);
    }
    if !world.signatureOk(source.format, bytes) {
      return Err(SignatureMismatch);
    }
    return Ok(Received(actualSize, world.sha(Body(response.chunks))));
  }

  /** What the transformation makes of the downloaded bytes, if it succeeds. */
  function Transformed(world: World, source: Source, body: Bytes): Option<Bytes> {
    if !IsImage(source.format) then
      if |body| <= source.maxDownloadBytes then Some(body) else None
    else
      match world.convert(body)
      case None => None
      case Some(pdf) =>
        if |pdf| <= 2 * source.maxDownloadBytes && world.signatureOk(Pdf, pdf) then Some(pdf) else None
  }

  /** `_copy_file`. */
  method CopyFile(fs: Storage, world: World, source: Path, target: Path, maxBytes: nat) returns (r: Result<(), Failure>)
    requires source != target
    modifies fs`disk, fs`history, fs`faults
    ensures WritesOnly(fs, target)
    ensures r.Ok? ==>
              && IsFile(old(fs.disk), source) && IsFile(fs.disk, target) && fs.disk[target].content.Blob?
              && |BytesOf(world, fs.disk[source].content)| <= maxBytes
              && fs.faults == old(fs.faults)
              && (fs.faithful ==> fs.disk[target].content.data == BytesOf(world, fs.disk[source].content))
    ensures r.Err? && target !in old(fs.disk) && IsFile(old(fs.disk), source) && fs.faults == old(fs.faults) ==>
              |BytesOf(world, old(fs.disk)[source].content)| > maxBytes
  {
    hide OnlyTouches, NewStatesTouch;
    UpdateTouches(fs.disk, target, File(Blob([]), false), fs.history);
    if !IsFile(fs.disk, source) {
      return Err(DownloadFailed);
    }
    var bytes := BytesOf(world, fs.disk[source].content);
    var created := fs.CreateExclusive(target);
    if !created {
      return Err(DownloadFailed);
    }
    var copied := 0;
    while true
      invariant copied <= |bytes| && copied <= maxBytes
      invariant WritesOnly(fs, target) && target !in old(fs.disk)
      invariant IsFile(fs.disk, source) && BytesOf(world, fs.disk[source].content) == bytes
      invariant IsFile(fs.disk, target) && fs.disk[target].content.Blob?
      invariant fs.faithful ==> fs.disk[target].content.data == bytes[..copied]
      invariant fs.faults == old(fs.faults)
      decreases |bytes| - copied
    {
      var block := fs.ReadBlock(source, bytes, copied, CHUNK_SIZE);
      if block.None? {
        return Err(DownloadFailed);
      }
      if block.value == [] {
        assert bytes[..copied] == bytes;
        break;
      }
      if copied + |block.value| > maxBytes {
        return Err(ProcessedTooLarge);
      }
      ghost var disk, history := fs.disk, fs.history;
      var written := fs.Append(target, block.value);
      TouchesAgain(old(fs.disk), disk, fs.disk, old(fs.history), history, fs.history, {target});
      if !written {
        return Err(DownloadFailed);
      }
      assert bytes[..copied] + block.value == bytes[..copied + |block.value|];
      copied := copied + |block.value|;
    }
    return Ok(());
  }

  /** `_convert_image_to_pdf`, with the conversion itself opaque. */
  method ConvertImageToPdf(fs: Storage, world: World, source: Path, target: Path, maxBytes: nat)
    returns (r: Result<(), Failure>)
    requires source != target
    modifies fs`disk, fs`history, fs`faults
    ensures WritesOnly(fs, target)
    ensures r.Ok? ==>
              && IsFile(old(fs.disk), source) && IsFile(fs.disk, target) && fs.disk[target].content.Blob?
              && fs.faults == old(fs.faults)
              && (fs.faithful ==>
                    && world.convert(BytesOf(world, fs.disk[source].content)) == Some(fs.disk[target].content.data)
                    && |fs.disk[target].content.data| <= maxBytes
                    && world.signatureOk(Pdf, fs.disk[target].content.data))
    ensures r.Err? && fs.faithful && target !in old(fs.disk) && IsFile(old(fs.disk), source)
            && fs.faults == old(fs.faults) ==>
              match world.convert(BytesOf(world, old(fs.disk)[source].content))
              case None => true
              case Some(pdf) => |pdf| > maxBytes || !world.signatureOk(Pdf, pdf)
  {
    if !IsFile(fs.disk, source) {
      return Err(ConversionFailed);
    }
    var bytes := BytesOf(world, fs.disk[source].content);
    var read := fs.ReadBlock(source, bytes, 0, |bytes| + 1);
    if read.None? {
      return Err(ConversionFailed);
    }
    var pdf := world.convert(bytes);
    if pdf.None? {
      return Err(ConversionFailed);
    }
    var created := fs.CreateExclusive(target);
    if !created {
      return Err(ConversionFailed);
    }
    var written := fs.Append(target, pdf.value);
    if !written {
      return Err(ConversionFailed);
    }
    var stored := fs.disk[target].content.data;
    assert fs.faithful ==> stored == pdf.value by { assert [] + pdf.value == pdf.value; }
    if |stored| > maxBytes {
      return Err(ProcessedTooLarge);
    }
    var prefix := fs.ReadBlock(target, stored, 0, 8);
    if prefix.None? {
      return Err(ConversionFailed);
    }
    if !world.signatureOk(Pdf, stored) {
      return Err(SignatureMismatch);
    }
    return Ok(());
  }

  /** `_write_processed_partial`. */
  method WriteProcessedPartial(fs: Storage, world: World, source: Source, rawPath: Path, processedPath: Path)
    returns (r: Result<Transformation, Failure>)
    requires rawPath != processedPath
    modifies fs`disk, fs`history, fs`faults
    ensures WritesOnly(fs, processedPath)
    ensures r.Ok? ==>
              && r.value == (if IsImage(source.format) then ImageToPdf else IdentityCopy)
              && IsFile(old(fs.disk), rawPath) && IsFile(fs.disk, processedPath) && fs.disk[processedPath].content.Blob?
              && fs.faults == old(fs.faults)
              && (fs.faithful ==>
                    Transformed(world, source, BytesOf(world, fs.disk[rawPath].content)) ==
                      Some(fs.disk[processedPath].content.data))
    ensures r.Err? && fs.faithful && processedPath !in old(fs.disk) && IsFile(old(fs.disk), rawPath)
            && fs.faults == old(fs.faults) ==>
              Transformed(world, source, BytesOf(world, old(fs.disk)[rawPath].content)) == None
  {
    if !IsImage(source.format) {
      var copy := CopyFile(fs, world, rawPath, processedPath, source.maxDownloadBytes);
      if copy.Err? {
        return Err(copy.error);
      }
      return Ok(IdentityCopy);
    }
    var converted := ConvertImageToPdf(fs, world, rawPath, processedPath, source.maxDownloadBytes * 2);
    if converted.Err? {
      return Err(converted.error);
    }
    return Ok(ImageToPdf);
  }

  /** `_replace_new_file`. */
  method ReplaceNewFile(fs: Storage, partial: Path, final: Path) returns (r: Result<(), Failure>)
    requires partial != final
    modifies fs`disk, fs`history, fs`faults
    ensures r.Ok? ==>
              && partial in old(fs.disk) && final !in old(fs.disk)
              && fs.disk == (old(fs.disk) - {partial})[final := old(fs.disk)[partial]]
              && fs.history == old(fs.history) + [fs.disk] && fs.faults == old(fs.faults)
    ensures r.Err? ==> fs.disk == old(fs.disk) && fs.history == old(fs.history)
    ensures r.Err? && partial in old(fs.disk) && final !in old(fs.disk) ==> fs.faults > old(fs.faults)
    ensures fs.faults >= old(fs.faults)
  {
    if final in fs.disk {
      return Err(ExistingConflict);
    }
    var ok := fs.Replace(partial, final);
    if !ok {
      return Err(DownloadFailed);
    }
    return Ok(());
  }

  /** Some of the listed files may be gone; a file that is left has its old content. */
  ghost predicate Shrinks(a: Disk, b: Disk, ps: set<Path>) {
    && OnlyTouches(a, b, ps)
    && forall p :: p in ps && p in b ==>
         p in a && (b[p] == a[p] || (b[p].File? && a[p].File? && b[p].content == a[p].content))
  }

  ghost predicate NewStatesShrink(before: seq<Disk>, after: seq<Disk>, disk: Disk, ps: set<Path>) {
    && |before| <= |after| && after[..|before|] == before
    && forall k :: |before| <= k < |after| ==> Shrinks(disk, after[k], ps)
  }

  /** `_cleanup_owned_files`: a failed deletion is skipped, and `cleaned` says whether there was none. */
  method CleanupOwnedFiles(fs: Storage, paths: seq<Path>) returns (ghost cleaned: bool)
    modifies fs`disk, fs`history, fs`faults
    ensures Shrinks(old(fs.disk), fs.disk, set p | p in paths)
    ensures NewStatesShrink(old(fs.history), fs.history, old(fs.disk), set p | p in paths)
    ensures cleaned ==> forall p :: p in paths ==> !IsFile(fs.disk, p)
    ensures fs.faults >= old(fs.faults)
    ensures !cleaned ==> fs.faults > old(fs.faults)
  {
    cleaned := true;
    ghost var owned := set p | p in paths;
    for i := 0 to |paths|
      invariant Shrinks(old(fs.disk), fs.disk, owned)
      invariant NewStatesShrink(old(fs.history), fs.history, old(fs.disk), owned)
      invariant cleaned ==> forall k :: 0 <= k < i ==> !IsFile(fs.disk, paths[k])
      invariant fs.faults >= old(fs.faults)
      invariant !cleaned ==> fs.faults > old(fs.faults)
    {
      var path := paths[i];
      assert path in owned;
      if IsFile(fs.disk, path) {
        var writable := fs.Chmod(path, false);
        if !writable {
          cleaned := false;
          continue;
        }
        var unlinked := fs.Unlink(path);
        if !unlinked {
          cleaned := false;
        }
      }
    }
  }

  /** `_write_manifest_atomically`. */
  method WriteManifestAtomically(fs: Storage, world: World, manifest: Manifest)
    returns (r: Result<(), Failure>, ghost cleaned: bool)
    modifies fs`disk, fs`history, fs`faults
    ensures r.Ok? ==>
              && CompactSize(manifest) <= MAX_MANIFEST_BYTES
              && Part(ManifestPath) !in old(fs.disk)
              && fs.disk == old(fs.disk)[ManifestPath := File(Document(manifest, FileSize(manifest)), false)]
              && fs.faults == old(fs.faults)
    ensures r.Err? ==> OnlyTouches(old(fs.disk), fs.disk, {Part(ManifestPath)})
    ensures Part(ManifestPath) in old(fs.disk) ==> r.Err? && fs.disk == old(fs.disk) && fs.history == old(fs.history)
    ensures r.Err? && cleaned ==> fs.disk == old(fs.disk)
    ensures |old(fs.history)| <= |fs.history| && fs.history[..|old(fs.history)|] == old(fs.history)
    ensures forall k :: |old(fs.history)| <= k < |fs.history| ==>
              OnlyTouches(old(fs.disk), fs.history[k], {Part(ManifestPath)}) || (r.Ok? && fs.history[k] == fs.disk)
    ensures r.Err? && CompactSize(manifest) <= MAX_MANIFEST_BYTES && Part(ManifestPath) !in old(fs.disk) ==>
              fs.faults > old(fs.faults)
    ensures fs.faults >= old(fs.faults)
    ensures !cleaned ==> fs.faults > old(fs.faults)
  {
    hide CompactSize, FileSize;
    cleaned := true;
    if CompactSize(manifest) > MAX_MANIFEST_BYTES {
      return Err(ManifestTooLarge), true;
    }
    var temporary := Part(ManifestPath);
    if temporary in fs.disk {
      return Err(ExistingConflict), true;
    }
    var written := fs.WriteDocument(temporary, manifest, FileSize(manifest));
    if !written {
      cleaned := CleanupOwnedFiles(fs, [temporary]);
      return Err(ManifestUpdateFailed), cleaned;
    }
    var replaced := fs.Replace(temporary, ManifestPath);
    if !replaced {
      cleaned := CleanupOwnedFiles(fs, [temporary]);
      assert temporary in [temporary];
      assert cleaned ==> fs.disk.Keys == old(fs.disk).Keys;
      return Err(ManifestUpdateFailed), cleaned;
    }
    return Ok(()), true;
  }
}
