/** The bounds of a source manifest (`EvaluationSource`, `EvaluationSourceManifest`,
    app/schemas/evaluation.py) and the length of its JSON text, in the compact form that
    is measured before writing and in the indented form that is written
    (scripts/prepare_m2_cross_border_eval.py). */
module ManifestSize {
  import opened Options
  import opened SchemaTypes
  import opened SourceManifest
  import opened Strings
  import opened Utf8

  const MAX_MANIFEST_BYTES: nat := 262144

  // ----- Scalars

  /** How many bytes `json.dumps` writes for a character, with `ensure_ascii=False`. */
  function CharBytes(c: char): nat {
    if c in {'"', '\\', '\n', '\r', '\t', '\U{8}', '\U{C}'} then 2
    else if c < ' ' then 6
    else |EncodeChar(c)|
  }

  function TextBytes(text: string): nat {
    if text == "" then 0 else CharBytes(text[0]) + TextBytes(text[1..])
  }

  function Quoted(text: string): nat { 2 + TextBytes(text) }
  function QuotedOrNull(text: Option<string>): nat { if text.Some? then Quoted(text.value) else 4 }
  function Flag(b: bool): nat { if b then 4 else 5 }
  function Digits(n: nat): nat { if n < 10 then 1 else 1 + Digits(n / 10) }
  function DigitsOrNull(n: Option<nat>): nat { if n.Some? then Digits(n.value) else 4 }

  /** A recorded hash is always 64 hexadecimal digits. */
  function HashOrNull(hash: Option<Digest>): nat { if hash.Some? then 66 else 4 }

  function PathText(path: Path): string {
    match path
    case Managed(RawArea, version, id, extension) => "raw/" + version + "/" + id + extension
    case Managed(ProcessedArea, version, id, extension) => "processed/" + version + "/" + id + extension
    case ManifestPath => "m2_cross_border_sources_v1.json"
    case Part(final) => PathText(final) + ".part"
    case Elsewhere(name) => name
  }

  function PathOrNull(path: Option<Path>): nat { if path.Some? then Quoted(PathText(path.value)) else 4 }

  function KindName(kind: Kind): string {
    match kind
    case PublicSource => "public_source"
    case DeterministicTransform => "deterministic_transform"
    case SyntheticDemo => "synthetic_demo"
  }

  function FormatName(format: Format): string {
    match format
    case Pdf => "pdf"
    case Docx => "docx"
    case Xlsx => "xlsx"
    case Csv => "csv"
    case Png => "png"
    case Jpeg => "jpeg"
    case Webpage => "webpage"
    case RepositoryArchive => "repository_archive"
    case DatasetArchive => "dataset_archive"
  }

  function LicenseName(license: License): string {
    match license
    case PendingReview => "pending_review"
    case AllowedRedistribution => "allowed_redistribution"
    case AllowedNoRedistribution => "allowed_no_redistribution"
    case Prohibited => "prohibited"
  }

  function LifecycleName(lifecycle: Lifecycle): string {
    match lifecycle
    case Planned => "planned"
    case Downloaded => "downloaded"
    case Verified => "verified"
    case Rejected => "rejected"
  }

  function TransformationName(transformation: Transformation): string {
    match transformation
    case IdentityCopy => "identity_copy"
    case ImageToPdf => "image_to_pdf"
    case OtherTransformation(name) => name
  }

  function TransformationOrNull(t: Option<Transformation>): nat {
    if t.Some? then Quoted(TransformationName(t.value)) else 4
  }

  // ----- The two forms

  /** An object in compact form: braces, quoted names with colons, values, commas. */
  function CompactObject(members: nat, nameBytes: nat, valueBytes: nat): nat
    requires members > 0
  {
    2 + nameBytes + 3 * members + valueBytes + (members - 1)
  }

  /** The same object indented by two: every member has a line of its own and a space after
      its colon, and so has the closing brace. */
  function IndentedObject(members: nat, nameBytes: nat, valueBytes: nat, depth: nat): nat
    requires members > 0
  {
    2 + nameBytes + (1 + 2 * (depth + 1) + 4) * members + valueBytes + (members - 1) + 1 + 2 * depth
  }

  function CompactList(items: nat, itemBytes: nat): nat {
    2 + itemBytes + (if items == 0 then 0 else items - 1)
  }

  function IndentedList(items: nat, itemBytes: nat, depth: nat): nat {
    if items == 0 then 2
    else 2 + itemBytes + (1 + 2 * (depth + 1)) * items + (items - 1) + 1 + 2 * depth
  }

  /** The names of the thirty fields of an entry, together. */
  const FIELDS: nat := 30
  const FIELD_NAME_BYTES: nat := 465

  function LanguageBytes(languages: seq<string>): nat {
    if languages == [] then 0 else Quoted(languages[0]) + LanguageBytes(languages[1..])
  }

  /** The values of an entry, except for its languages. */
  function ValueBytes(s: Source): nat {
    Quoted(s.id) + Quoted(s.datasetVersion) + Quoted(s.details.group) + Quoted(KindName(s.kind))
    + Quoted(s.details.name) + Quoted(s.details.organization) + Quoted(s.details.url) + Quoted(FormatName(s.format))
    + Quoted(s.details.purpose) + Flag(s.details.countsTowardCore) + Quoted(LicenseName(s.license))
    + QuotedOrNull(s.licenseName) + QuotedOrNull(s.licenseUrl) + Flag(s.downloadAllowed)
    + Flag(s.details.redistributionAllowed) + Quoted(s.details.accessedOn) + QuotedOrNull(s.details.publishedOn)
    + QuotedOrNull(s.sourceVersion) + Quoted(LifecycleName(s.lifecycle)) + Digits(s.maxDownloadBytes)
    + DigitsOrNull(s.expectedSize) + DigitsOrNull(s.actualSize) + HashOrNull(s.rawHash) + HashOrNull(s.processedHash)
    + PathOrNull(s.rawPath) + PathOrNull(s.processedPath) + TransformationOrNull(s.transformation)
    + QuotedOrNull(s.transformationVersion) + QuotedOrNull(s.details.rejectionReason)
  }

  function CompactEntry(s: Source): nat {
    var languages := CompactList(|s.details.languages|, LanguageBytes(s.details.languages));
    CompactObject(FIELDS, FIELD_NAME_BYTES, ValueBytes(s) + languages)
  }

  function IndentedEntry(s: Source): nat {
    var languages := IndentedList(|s.details.languages|, LanguageBytes(s.details.languages), 3);
    IndentedObject(FIELDS, FIELD_NAME_BYTES, ValueBytes(s) + languages, 2)
  }

  function CompactEntries(sources: seq<Source>): nat {
    if sources == [] then 0 else CompactEntry(sources[0]) + CompactEntries(sources[1..])
  }

  function IndentedEntries(sources: seq<Source>): nat {
    if sources == [] then 0 else IndentedEntry(sources[0]) + IndentedEntries(sources[1..])
  }

  const HEADER_NAMES := "dataset_version" + "manifest_version" + "sources"

  /** `len(canonical_evaluation_bytes(manifest))`. */
  function CompactSize(m: Manifest): nat {
    CompactObject(3, |HEADER_NAMES|,
                  Quoted(m.datasetVersion) + Quoted(m.version) + CompactList(|m.sources|, CompactEntries(m.sources)))
  }

  /** The length of the file that is written: the indented form and a line break. */
  function FileSize(m: Manifest): nat {
    IndentedObject(3, |HEADER_NAMES|,
                   Quoted(m.datasetVersion) + Quoted(m.version) +
                     IndentedList(|m.sources|, IndentedEntries(m.sources), 1),
                   0) + 1
  }

  /** The number above is that of the names. */
  lemma FieldNamesAddUp()
    ensures FIELD_NAME_BYTES ==
              |"source_id"| + |"dataset_version"| + |"source_group"| + |"source_kind"| + |"source_name"|
              + |"source_organization"| + |"official_source_url"| + |"source_format"| + |"languages"|
              + |"business_purpose"| + |"counts_toward_core_score"| + |"license_status"| + |"license_name"|
              + |"license_url"| + |"download_allowed"| + |"redistribution_allowed"| + |"accessed_on"|
              + |"published_on"| + |"source_version"| + |"lifecycle_status"| + |"max_download_bytes"|
              + |"expected_size_bytes"| + |"actual_size_bytes"| + |"raw_sha256"| + |"processed_sha256"|
              + |"raw_relative_path"| + |"processed_relative_path"| + |"transformation_method"|
              + |"transformation_version"| + |"rejection_reason"|
  {
  }

  /** What indenting adds: 257 bytes for an entry and nine for each of its languages. */
  function Layout(sources: seq<Source>): nat {
    if sources == [] then 0 else 257 + 9 * |sources[0].details.languages| + Layout(sources[1..])
  }

  lemma {:induction false} EntriesAreLonger(sources: seq<Source>)
    requires forall i :: 0 <= i < |sources| ==> sources[i].details.languages != []
    ensures IndentedEntries(sources) + 5 * |sources| == CompactEntries(sources) + Layout(sources)
  {
    hide ValueBytes, LanguageBytes;
    if sources != [] {
      EntriesAreLonger(sources[1..]);
    }
  }

  /** Main result: the file is longer than what is measured by 17 bytes, 257 for each entry
      and nine for each language, whatever the entries hold. */
  lemma FileIsLonger(m: Manifest)
    requires m.sources != [] && forall i :: 0 <= i < |m.sources| ==> m.sources[i].details.languages != []
    ensures FileSize(m) == CompactSize(m) + 17 + Layout(m.sources)
  {
    hide CompactEntries, IndentedEntries;
    EntriesAreLonger(m.sources);
  }

  // ----- Bounds

  predicate IfGiven(text: Option<string>, low: nat, high: nat) { text.Some? ==> LengthWithin(text.value, low, high) }

  const MAX_INTEGER: nat := 0x7FFF_FFFF_FFFF_FFFF

  /** The bounds of the fields, and the rules of `validate_source_rules` about details. */
  predicate SourceWithinSchema(s: Source) {
    && IsIdentifier(s.id) && IsVersion(s.datasetVersion) && s.maxDownloadBytes <= MAX_INTEGER
    && LengthWithin(s.details.name, 1, 300) && LengthWithin(s.details.organization, 1, 200)
    && LengthWithin(s.details.url, 10, 1000) && LengthWithin(s.details.purpose, 1, 500)
    && 1 <= |s.details.languages| <= 8 && Distinct(s.details.languages)
    && (forall i :: 0 <= i < |s.details.languages| ==> LengthWithin(s.details.languages[i], 2, 6))
    && IfGiven(s.licenseName, 1, 200) && IfGiven(s.licenseUrl, 10, 1000)
    && |s.details.accessedOn| == 10 && IfGiven(s.details.publishedOn, 10, 10)
    && (s.details.publishedOn.Some? ==> !Before(s.details.accessedOn, s.details.publishedOn.value))
    && (s.sourceVersion.Some? ==> IsVersion(s.sourceVersion.value))
    && (s.rawPath.Some? ==> |PathText(s.rawPath.value)| <= 500)
    && (s.processedPath.Some? ==> |PathText(s.processedPath.value)| <= 500)
    && (s.transformation.Some? ==> IsIdentifier(TransformationName(s.transformation.value)))
    && (s.transformationVersion.Some? ==> IsVersion(s.transformationVersion.value))
    && IfGiven(s.details.rejectionReason, 1, 300) && (s.lifecycle.Rejected? <==> s.details.rejectionReason.Some?)
    && IsSourceGroup(s.details.group)
    && (s.details.countsTowardCore ==> s.details.group == "cross_border_core")
    && (s.details.redistributionAllowed <==> s.license.AllowedRedistribution?)
  }

  /** The download budget of all sources that are not synthetic. */
  function Budget(sources: seq<Source>): nat {
    if sources == [] then 0
    else (if sources[0].kind.SyntheticDemo? then 0 else sources[0].maxDownloadBytes) + Budget(sources[1..])
  }

  /** The rest of `validate_manifest`, with the bounds of the fields. */
  predicate WithinSchema(m: Manifest) {
    && IsVersion(m.version) && IsVersion(m.datasetVersion) && 1 <= |m.sources| <= 64
    && (forall i :: 0 <= i < |m.sources| ==>
          SourceWithinSchema(m.sources[i]) && m.sources[i].datasetVersion == m.datasetVersion)
    && Budget(m.sources) <= 200 * 1024 * 1024
  }

  /** So the file of any valid manifest is longer than the measured form by at most 21073 bytes. */
  lemma LayoutIsBounded(m: Manifest)
    requires WithinSchema(m)
    ensures CompactSize(m) + 17 + 266 * |m.sources| <= FileSize(m) <= CompactSize(m) + 17 + 329 * |m.sources|
  {
    hide CompactSize, FileSize, Budget;
    FileIsLonger(m);
    LayoutOf(m.sources);
  }

  lemma {:induction false} LayoutOf(sources: seq<Source>)
    requires forall i :: 0 <= i < |sources| ==> 1 <= |sources[i].details.languages| <= 8
    ensures 266 * |sources| <= Layout(sources) <= 329 * |sources|
  {
    if sources != [] {
      LayoutOf(sources[1..]);
    }
  }
}
