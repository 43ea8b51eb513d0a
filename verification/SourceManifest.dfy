/** The source manifest and the disk it lives on: `EvaluationSource` and
    `EvaluationSourceManifest` (app/schemas/evaluation.py) with the path scheme of
    scripts/prepare_m2_cross_border_eval.py. */
module SourceManifest {
  import opened Options
  import opened Utf8

  type Bytes = seq<Byte>
  type Digest = string

  datatype Lifecycle = Planned | Downloaded | Verified | Rejected
  datatype Format = Pdf | Docx | Xlsx | Csv | Png | Jpeg | Webpage | RepositoryArchive | DatasetArchive
  datatype Kind = PublicSource | DeterministicTransform | SyntheticDemo
  datatype License = PendingReview | AllowedRedistribution | AllowedNoRedistribution | Prohibited
  datatype Transformation = IdentityCopy | ImageToPdf | OtherTransformation(name: string)

  datatype Area = RawArea | ProcessedArea

  /** Paths by what they are for. `Part(p)` is the `.part` file beside `p`. */
  datatype Path =
    | Managed(area: Area, datasetVersion: string, sourceId: string, extension: string)
    | ManifestPath
    | Part(final: Path)
    | Elsewhere(name: string)

  /** The fields that a preparation run neither reads nor changes. */
  datatype Details = Details(
    group: string,
    name: string,
    organization: string,
    url: string,
    languages: seq<string>,
    purpose: string,
    countsTowardCore: bool,
    redistributionAllowed: bool,
    accessedOn: string,
    publishedOn: Option<string>,
    rejectionReason: Option<string>)

  datatype Source = Source(
    id: string,
    datasetVersion: string,
    kind: Kind,
    format: Format,
    license: License,
    licenseName: Option<string>,
    licenseUrl: Option<string>,
    downloadAllowed: bool,
    sourceVersion: Option<string>,
    lifecycle: Lifecycle,
    maxDownloadBytes: nat,
    expectedSize: Option<nat>,
    actualSize: Option<nat>,
    rawHash: Option<Digest>,
    processedHash: Option<Digest>,
    rawPath: Option<Path>,
    processedPath: Option<Path>,
    transformation: Option<Transformation>,
    transformationVersion: Option<string>,
    details: Details)

  datatype Manifest = Manifest(version: string, datasetVersion: string, sources: seq<Source>)

  predicate IsImage(format: Format) { format.Png? || format.Jpeg? }

  /** `_EXTENSIONS`. */
  function Extension(format: Format): Option<string> {
    match format
    case Pdf => Some(".pdf")
    case Docx => Some(".docx")
    case Xlsx => Some(".xlsx")
    case Csv => Some(".csv")
    case Png => Some(".png")
    case Jpeg => Some(".jpg")
    case _ => None
  }

  function RawPath(source: Source): Path
    requires Extension(source.format).Some?
  {
    Managed(RawArea, source.datasetVersion, source.id, Extension(source.format).value)
  }

  function ProcessedPath(source: Source): Path
    requires Extension(source.format).Some?
  {
    Managed(ProcessedArea, source.datasetVersion, source.id,
            if IsImage(source.format) then ".pdf" else Extension(source.format).value)
  }

  predicate LicenseAllows(license: License) {
    license.AllowedRedistribution? || license.AllowedNoRedistribution?
  }

  predicate HasRaw(source: Source) {
    source.actualSize.Some? && source.rawHash.Some? && source.rawPath.Some?
  }

  predicate HasProcessed(source: Source) {
    && source.processedHash.Some? && source.processedPath.Some?
    && source.transformation.Some? && source.transformationVersion.Some?
  }

  predicate HasSomeProcessed(source: Source) {
    || source.processedHash.Some? || source.processedPath.Some?
    || source.transformation.Some? || source.transformationVersion.Some?
  }

  predicate HasObservation(source: Source) {
    source.actualSize.Some? || source.rawHash.Some? || source.rawPath.Some? || HasSomeProcessed(source)
  }

  /** `EvaluationSource.validate_source_rules`, for the fields modelled here. */
  predicate ValidSource(source: Source) {
    && source.maxDownloadBytes >= 1
    && (source.expectedSize.Some? ==> 1 <= source.expectedSize.value <= source.maxDownloadBytes)
    && (source.actualSize.Some? ==> 1 <= source.actualSize.value <= source.maxDownloadBytes)
    && (if LicenseAllows(source.license)
        then source.licenseName.Some? && source.licenseUrl.Some? && source.downloadAllowed
        else !source.downloadAllowed)
    && match source.lifecycle
       case Planned => !HasObservation(source)
       case Downloaded =>
         HasRaw(source) && (HasSomeProcessed(source) ==> HasProcessed(source)) && source.downloadAllowed
       case Verified => HasRaw(source) && HasProcessed(source) && source.sourceVersion.Some? && source.downloadAllowed
       case Rejected => !HasObservation(source)
  }

  /** A valid entry records nothing before its file is there, then the raw file, and of the processed
      file all or, until it is verified, nothing. */
  lemma RecordsFollowLifecycle(s: Source)
    requires ValidSource(s)
    ensures s.lifecycle.Planned? || s.lifecycle.Rejected? ==>
              && s.actualSize == None && s.rawHash == None && s.rawPath == None && s.processedHash == None
              && s.processedPath == None && s.transformation == None && s.transformationVersion == None
    ensures s.lifecycle.Downloaded? || s.lifecycle.Verified? ==>
              && s.actualSize.Some? && s.rawHash.Some? && s.rawPath.Some? && s.downloadAllowed
              && (s.processedHash.Some? <==> s.processedPath.Some?)
              && (s.processedPath.Some? <==> s.transformation.Some?)
              && (s.transformation.Some? <==> s.transformationVersion.Some?)
    ensures s.lifecycle.Verified? ==> s.processedHash.Some? && s.sourceVersion.Some?
  {
  }

  predicate ValidSources(manifest: Manifest) {
    && (forall i :: 0 <= i < |manifest.sources| ==> ValidSource(manifest.sources[i]))
    && (forall i, j :: 0 <= i < j < |manifest.sources| ==> manifest.sources[i].id != manifest.sources[j].id)
  }

  /** The first source with the identifier; valid manifests have at most one. */
  function FindSource(manifest: Manifest, id: string): (found: Option<nat>)
    ensures found.Some? ==> found.value < |manifest.sources| && manifest.sources[found.value].id == id
    ensures found.None? ==> forall i :: 0 <= i < |manifest.sources| ==> manifest.sources[i].id != id
  {
    FindFrom(manifest, id, 0)
  }

  function FindFrom(manifest: Manifest, id: string, from: nat): (found: Option<nat>)
    requires from <= |manifest.sources|
    ensures found.Some? ==> found.value < |manifest.sources| && manifest.sources[found.value].id == id
    ensures found.None? ==> forall i :: from <= i < |manifest.sources| ==> manifest.sources[i].id != id
    decreases |manifest.sources| - from
  {
    if from == |manifest.sources| then None
    else if manifest.sources[from].id == id then Some(from)
    else FindFrom(manifest, id, from + 1)
  }

  /** `_replace_manifest_source`: every source with the replacement's identifier is replaced. */
  function ReplaceSource(manifest: Manifest, replacement: Source): Manifest {
    manifest.(sources := seq(|manifest.sources|, i requires 0 <= i < |manifest.sources| =>
      if manifest.sources[i].id == replacement.id then replacement else manifest.sources[i]))
  }

  lemma ReplacedSource(manifest: Manifest, replacement: Source)
    requires ValidSources(manifest) && ValidSource(replacement)
    requires FindSource(manifest, replacement.id).Some?
    ensures ValidSources(ReplaceSource(manifest, replacement))
    ensures FindSource(ReplaceSource(manifest, replacement), replacement.id) == FindSource(manifest, replacement.id)
    ensures var i := FindSource(manifest, replacement.id).value;
            ReplaceSource(manifest, replacement).sources == manifest.sources[i := replacement]
  {
    var i := FindSource(manifest, replacement.id).value;
    var replaced := ReplaceSource(manifest, replacement);
    assert replaced.sources[i] == replacement;
    var j := FindSource(replaced, replacement.id).value;
    assert manifest.sources[j].id == replacement.id;
  }
}
