/** A manifest within all bounds that can be loaded, one source of which can be prepared
    successfully, and that cannot be loaded any more afterwards. */
module ManifestOutgrowth {
  import opened FileSystem
  import opened ManifestSize
  import opened Options
  import opened PreparationRuns
  import opened PreparationSteps
  import opened SchemaTypes
  import opened SourceManifest
  import opened SourcePreparation
  import opened Strings
  import opened Utf8

  // ----- Plain text

  predicate IsPlain(c: char) { ' ' <= c <= '~' && c != '"' && c != '\\' }
  predicate Plain(text: string) { forall i :: 0 <= i < |text| ==> IsPlain(text[i]) }

  lemma {:induction false} PlainBytes(text: string)
    requires Plain(text)
    ensures TextBytes(text) == |text|
  {
    if text != "" {
      assert IsPlain(text[0]);
      PlainBytes(text[1..]);
    }
  }

  function Filler(n: nat): string { seq(n, _ => 'x') }

  // ----- The manifest

  function SampleId(i: nat): string
    requires i < 64
  {
    "source-" + [('a' as int + i / 8) as char] + [('a' as int + i % 8) as char]
  }

  function SampleUrl(): string { "https://example.org/" + Filler(980) }

  /** A planned PDF, described at length. */
  function Sample(i: nat): Source
    requires i < 64
  {
    Source(SampleId(i), "v1", PublicSource, Pdf, AllowedNoRedistribution, Some(Filler(200)), Some(SampleUrl()), true,
           Some("v1"), Planned, 1024, None, None, None, None, None, None, None, None,
           Details("cross_border_core", Filler(300), Filler(200), SampleUrl(), ["en"], Filler(360), true, false,
                   "2026-01-01", None, None))
  }

  function Samples(): seq<Source> { seq(64, i requires 0 <= i < 64 => Sample(i)) }

  function SampleManifest(): Manifest { Manifest("v1", "v1", Samples()) }

  const BODY: Bytes := [0x25, 0x50, 0x44, 0x46, 0x2D]

  /** A hash that keeps every byte, and a converter that is not needed. */
  function Spelled(bytes: Bytes): Digest {
    seq(|bytes|, i requires 0 <= i < |bytes| => bytes[i] as char)
  }

  function SampleWorld(): World {
    World((bytes: Bytes) => Spelled(bytes), (m: Manifest, n: nat) => [], (f: Format, bytes: Bytes) => true,
          (bytes: Bytes) => None)
  }

  lemma SpelledIsInjective(a: Bytes, b: Bytes)
    requires Spelled(a) == Spelled(b)
    ensures a == b
  {
    assert |Spelled(a)| == |a| && |Spelled(b)| == |b|;
    forall i | 0 <= i < |a|
      ensures a[i] == b[i]
    {
      assert Spelled(a)[i] == Spelled(b)[i];
      assert (a[i] as char) as int == (b[i] as char) as int;
    }
  }

  lemma WorldIsInjective()
    ensures Injective(SampleWorld())
  {
    var world := SampleWorld();
    forall a, b | world.sha(a) == world.sha(b)
      ensures a == b
    {
      SpelledIsInjective(a, b);
    }
  }

  // ----- It is within the bounds

  lemma SampleIsValid(i: nat)
    requires i < 64
    ensures ValidSource(Sample(i)) && SourceWithinSchema(Sample(i))
  {
    var id := SampleId(i);
    assert |id| == 9 && id[0] == 's';
    assert |SampleUrl()| == 1000;
    assert "cross_border_core" in {"synthetic_engineering_regression", "cross_border_core",
                                   "complex_document_diagnostics", "security_acl_version"};
  }

  lemma SampleIdsDiffer(i: nat, j: nat)
    requires i < j < 64
    ensures SampleId(i) != SampleId(j)
  {
    assert SampleId(i)[7] as int - 'a' as int == i / 8 && SampleId(i)[8] as int - 'a' as int == i % 8;
    assert SampleId(j)[7] as int - 'a' as int == j / 8 && SampleId(j)[8] as int - 'a' as int == j % 8;
  }

  lemma {:induction false} BudgetOfEqual(sources: seq<Source>, each: nat)
    requires forall i :: 0 <= i < |sources| ==> sources[i].maxDownloadBytes == each && !sources[i].kind.SyntheticDemo?
    ensures Budget(sources) == |sources| * each
  {
    if sources != [] {
      BudgetOfEqual(sources[1..], each);
    }
  }

  /** The manifest, before and after its first source is verified. */
  function After(entry: Source): Manifest { SampleManifest().(sources := Samples()[0 := entry]) }

  // ----- Its size

  lemma {:induction false} EntriesOfEqual(sources: seq<Source>, each: nat)
    requires forall i :: 0 <= i < |sources| ==> CompactEntry(sources[i]) == each
    ensures CompactEntries(sources) == |sources| * each
  {
    hide CompactEntry;
    if sources != [] {
      EntriesOfEqual(sources[1..], each);
    }
  }

  lemma {:induction false} LayoutOfOneLanguage(sources: seq<Source>)
    requires forall i :: 0 <= i < |sources| ==> |sources[i].details.languages| == 1
    ensures Layout(sources) == 266 * |sources|
  {
    if sources != [] {
      LayoutOfOneLanguage(sources[1..]);
    }
  }

  lemma QuotedPlain(text: string)
    requires Plain(text)
    ensures Quoted(text) == 2 + |text|
  {
    PlainBytes(text);
  }

  /** The values that a run does not change. */
  function KeptBytes(s: Source): nat {
    Quoted(s.id) + Quoted(s.datasetVersion) + Quoted(s.details.group) + Quoted(KindName(s.kind))
    + Quoted(s.details.name) + Quoted(s.details.organization) + Quoted(s.details.url) + Quoted(FormatName(s.format))
    + Quoted(s.details.purpose) + Flag(s.details.countsTowardCore) + Quoted(LicenseName(s.license))
    + QuotedOrNull(s.licenseName) + QuotedOrNull(s.licenseUrl) + Flag(s.downloadAllowed)
    + Flag(s.details.redistributionAllowed) + Quoted(s.details.accessedOn) + QuotedOrNull(s.details.publishedOn)
    + QuotedOrNull(s.sourceVersion) + Digits(s.maxDownloadBytes) + QuotedOrNull(s.details.rejectionReason)
  }

  lemma NamesBytes()
    ensures Quoted("v1") == 4 && Quoted("cross_border_core") == 19 && Quoted("public_source") == 15
    ensures Quoted("pdf") == 5 && Quoted("allowed_no_redistribution") == 27 && Quoted("2026-01-01") == 12
    ensures Quoted("planned") == 9 && Quoted("verified") == 10
  {
    hide Quoted;
    QuotedPlain("v1");
    QuotedPlain("cross_border_core");
    QuotedPlain("public_source");
    QuotedPlain("pdf");
    QuotedPlain("allowed_no_redistribution");
    QuotedPlain("2026-01-01");
    QuotedPlain("planned");
    QuotedPlain("verified");
  }

  lemma FillerBytes(n: nat)
    ensures Quoted(Filler(n)) == 2 + n
  {
    hide Quoted;
    QuotedPlain(Filler(n));
  }

  lemma UrlBytes()
    ensures Quoted(SampleUrl()) == 1002
  {
    hide Quoted;
    QuotedPlain(SampleUrl());
  }

  lemma IdBytes(i: nat)
    requires i < 64
    ensures Quoted(SampleId(i)) == 11
  {
    hide Quoted;
    QuotedPlain(SampleId(i));
  }

  lemma SampleKeptBytes(i: nat)
    requires i < 64
    ensures KeptBytes(Sample(i)) == 3194
  {
    hide Quoted, SampleId, SampleUrl, Filler, Digits;
    IdBytes(i);
    UrlBytes();
    NamesBytes();
    FillerBytes(300);
    FillerBytes(200);
    FillerBytes(360);
    FourDigits();
  }

  lemma FourDigits()
    ensures Digits(1024) == 4
  {
    assert Digits(102) == 3;
  }

  lemma EnglishBytes()
    ensures LanguageBytes(["en"]) == 4
  {
    QuotedPlain("en");
    assert ["en"][1..] == [];
  }

  /** The values of an entry, apart from those that a run records. */
  lemma Grouped(s: Source)
    ensures ValueBytes(s) ==
              KeptBytes(s) + Quoted(LifecycleName(s.lifecycle))
              + DigitsOrNull(s.expectedSize) + DigitsOrNull(s.actualSize)
              + HashOrNull(s.rawHash) + HashOrNull(s.processedHash)
              + PathOrNull(s.rawPath) + PathOrNull(s.processedPath)
              + TransformationOrNull(s.transformation) + QuotedOrNull(s.transformationVersion)
  {
    hide Quoted, QuotedOrNull, Digits, DigitsOrNull, PathOrNull, TransformationOrNull, LifecycleName, Flag, HashOrNull;
  }

  lemma SampleEntryBytes(i: nat)
    requires i < 64
    ensures CompactEntry(Sample(i)) == 3827
  {
    hide KeptBytes, ValueBytes, Quoted, LanguageBytes, SampleId, SampleUrl, Filler, Digits;
    SampleKeptBytes(i);
    EnglishBytes();
    NamesBytes();
    Grouped(Sample(i));
  }

  /** The entry that a successful run records for the first source. */
  function SampleEntry(): Source { EntryFor(SampleWorld(), Sample(0), BODY, BODY) }

  lemma RecordedTextBytes()
    ensures Quoted("raw/" + "v1" + "/" + SampleId(0) + ".pdf") == 22
    ensures Quoted("processed/" + "v1" + "/" + SampleId(0) + ".pdf") == 28
    ensures Quoted("identity_copy") == 15 && Quoted("m2-eval-transform-v1") == 22
  {
    hide Quoted;
    QuotedPlain("raw/" + "v1" + "/" + SampleId(0) + ".pdf");
    QuotedPlain("processed/" + "v1" + "/" + SampleId(0) + ".pdf");
    QuotedPlain("identity_copy");
    QuotedPlain("m2-eval-transform-v1");
  }

  lemma SampleEntryKeeps()
    ensures KeptBytes(SampleEntry()) == KeptBytes(Sample(0))
    ensures SampleEntry().details == Sample(0).details
  {
    hide Quoted, SampleId, SampleUrl, Filler, Digits;
  }

  lemma RecordedEntryBytes()
    ensures CompactEntry(SampleEntry()) == 4017
  {
    hide KeptBytes, ValueBytes, Quoted, LanguageBytes, SampleId, SampleUrl, Filler;
    SampleKeptBytes(0);
    SampleEntryKeeps();
    EnglishBytes();
    NamesBytes();
    RecordedTextBytes();
    Grouped(SampleEntry());
  }

  // ----- The two manifests

  lemma SizesBefore()
    ensures CompactSize(SampleManifest()) == 245052 && FileSize(SampleManifest()) == 262093
  {
    hide CompactEntry, CompactEntries, FileSize, Layout, Quoted, LanguageBytes, SampleId, SampleUrl, Filler;
    NamesBytes();
    forall i | 0 <= i < 64
      ensures CompactEntry(Samples()[i]) == 3827
    {
      SampleEntryBytes(i);
    }
    EntriesOfEqual(Samples(), 3827);
    LayoutOfOneLanguage(Samples());
    FileIsLonger(SampleManifest());
  }

  lemma SizesAfter()
    ensures CompactSize(After(SampleEntry())) == 245242 && FileSize(After(SampleEntry())) == 262283
  {
    hide CompactEntry, FileSize, Layout, Quoted, LanguageBytes, SampleId, SampleUrl, Filler, SampleEntry;
    NamesBytes();
    RecordedEntryBytes();
    SampleEntryKeeps();
    var sources := After(SampleEntry()).sources;
    forall i | 1 <= i < 64
      ensures CompactEntry(sources[i]) == 3827
    {
      SampleEntryBytes(i);
    }
    EntriesOfEqual(sources[1..], 3827);
    LayoutOfOneLanguage(sources);
    FileIsLonger(After(SampleEntry()));
  }

  /** What the proofs below need to know of the samples. */
  lemma SampleAt(i: nat)
    requires i < 64
    ensures |Samples()| == 64 && Samples()[i] == Sample(i) && ValidSource(Samples()[i])
            && SourceWithinSchema(Samples()[i])
    ensures Samples()[i].id == SampleId(i) && Samples()[i].datasetVersion == "v1"
    ensures Samples()[i].maxDownloadBytes == 1024 && !Samples()[i].kind.SyntheticDemo?
  {
    hide ValidSource, SourceWithinSchema;
    SampleIsValid(i);
  }

  lemma SampleBudget()
    ensures Budget(Samples()) == 65536
  {
    hide Samples, ValidSource, SourceWithinSchema, SampleId;
    forall i | 0 <= i < 64
      ensures |Samples()| == 64 && Samples()[i].maxDownloadBytes == 1024 && !Samples()[i].kind.SyntheticDemo?
    {
      SampleAt(i);
    }
    SampleAt(0);
    BudgetOfEqual(Samples(), 1024);
  }

  lemma SampleSourcesAreValid()
    ensures ValidSources(SampleManifest())
  {
    hide Samples, ValidSource, SourceWithinSchema, SampleId;
    SampleAt(0);
    forall i | 0 <= i < 64
      ensures ValidSource(Samples()[i])
    {
      SampleAt(i);
    }
    forall i, j | 0 <= i < j < 64
      ensures Samples()[i].id != Samples()[j].id
    {
      SampleAt(i);
      SampleAt(j);
      SampleIdsDiffer(i, j);
    }
  }

  lemma SampleIsWithinSchema()
    ensures WithinSchema(SampleManifest())
  {
    hide Samples, ValidSource, SourceWithinSchema, SampleId, Budget;
    SampleBudget();
    SampleAt(0);
    forall i | 0 <= i < 64
      ensures SourceWithinSchema(Samples()[i]) && Samples()[i].datasetVersion == "v1"
    {
      SampleAt(i);
    }
  }

  lemma SampleManifestIsValid()
    ensures ValidManifest(SampleManifest()) && FindSource(SampleManifest(), SampleId(0)) == Some(0)
  {
    hide Samples, ValidSources, WithinSchema, CompactSize, SampleId, ValidSource, SourceWithinSchema;
    SizesBefore();
    SampleSourcesAreValid();
    SampleIsWithinSchema();
    SampleAt(0);
  }

  lemma RecordedNamesAreValid()
    ensures IsIdentifier("identity_copy") && IsVersion("m2-eval-transform-v1")
  {
  }

  lemma RecordedPathsAreShort()
    ensures |PathText(RawPath(Sample(0)))| <= 500 && |PathText(ProcessedPath(Sample(0)))| <= 500
  {
    hide SampleUrl, Filler;
    assert |SampleId(0)| == 9;
  }

  lemma EntryIsValid()
    ensures ValidSource(SampleEntry()) && SourceWithinSchema(SampleEntry())
  {
    hide SampleId, SampleUrl, Filler, Spelled, PathText, IsIdentifier, IsVersion, Distinct;
    SampleIsValid(0);
    RecordedNamesAreValid();
    RecordedPathsAreShort();
  }

  lemma EntryFields()
    ensures SampleEntry().id == SampleId(0) && SampleEntry().datasetVersion == "v1"
    ensures SampleEntry().maxDownloadBytes == 1024 && !SampleEntry().kind.SyntheticDemo?
  {
    hide SampleId, SampleUrl, Filler, Spelled;
  }

  lemma AfterIsReplaced()
    ensures ReplaceSource(SampleManifest(), SampleEntry()) == After(SampleEntry()) && ValidSources(After(SampleEntry()))
  {
    hide Samples, ValidSources, ValidSource, SourceWithinSchema, SampleId, SampleEntry;
    SampleSourcesAreValid();
    SampleManifestIsValid();
    EntryIsValid();
    EntryFields();
    ReplacedSource(SampleManifest(), SampleEntry());
  }

  lemma AfterIsWithinSchema()
    ensures WithinSchema(After(SampleEntry()))
  {
    hide Samples, ValidSource, SourceWithinSchema, SampleId, Budget, SampleEntry;
    SampleAt(0);
    EntryIsValid();
    EntryFields();
    var sources := After(SampleEntry()).sources;
    forall i | 0 <= i < 64
      ensures SourceWithinSchema(sources[i]) && sources[i].datasetVersion == "v1"
      ensures sources[i].maxDownloadBytes == 1024 && !sources[i].kind.SyntheticDemo?
    {
      SampleAt(i);
    }
    BudgetOfEqual(sources, 1024);
  }

  lemma AfterIsValid()
    ensures ReplaceSource(SampleManifest(), SampleEntry()) == After(SampleEntry())
    ensures ValidManifest(After(SampleEntry()))
  {
    hide After, SampleManifest, SampleEntry, ReplaceSource, ValidSources, WithinSchema, CompactSize;
    AfterIsReplaced();
    AfterIsWithinSchema();
    SizesAfter();
  }

  // ----- The run

  function DiskBefore(): Disk {
    map[ManifestPath := File(Document(SampleManifest(), FileSize(SampleManifest())), false)]
  }

  function DiskAfter(): Disk {
    DiskBefore()[RawPath(Sample(0)) := File(Blob(BODY), true)][ProcessedPath(Sample(0)) := File(Blob(BODY), false)]
                [ManifestPath := File(Document(After(SampleEntry()), FileSize(After(SampleEntry()))), false)]
  }

  lemma ManifestLoads()
    ensures ManifestOn(SampleWorld(), DiskBefore()) == Ok(SampleManifest())
  {
    hide ValidManifest, FileSize, SampleManifest, FindSource, SampleId, Sample, Samples;
    SizesBefore();
    SampleManifestIsValid();
  }

  lemma LoadedBefore()
    ensures ManifestOn(SampleWorld(), DiskBefore()) == Ok(SampleManifest())
    ensures SourceOn(SampleWorld(), DiskBefore(), SampleId(0)) == Some(Sample(0))
  {
    hide ManifestOn, SourceOn, ValidManifest, SampleManifest, FindSource, SampleId, Sample, Samples, DiskBefore;
    ManifestLoads();
    SampleManifestIsValid();
    SourceFound(SampleWorld(), DiskBefore(), SampleId(0));
    assert SampleManifest().sources[0] == Sample(0) by {
      SampleAt(0);
      assert SampleManifest().sources == Samples() by { SamplesOf(); }
    }
  }

  lemma SamplesOf()
    ensures SampleManifest().sources == Samples()
  {
    hide Samples;
  }

  function Answer(): Response { Response(200, Declared(5), true, [BODY], false) }

  lemma AnswerBody()
    ensures Body(Answer().chunks) == BODY
  {
    assert [BODY][..0] == [];
  }

  lemma RunIsAccepted()
    ensures Acceptable(SampleWorld(), DiskBefore(), SampleId(0), true, true, Answer())
  {
    hide ValidManifest, FileSize, CompactSize, SampleManifest, ManifestOn, SourceOn, ReplaceSource, Body, SampleId,
         SampleUrl, Filler, Spelled, After;
    LoadedBefore();
    AnswerBody();
    AfterIsValid();
    assert FetchedEntry(SampleWorld(), Sample(0), Answer()) == SampleEntry();
  }

  lemma RunCommits()
    ensures CommittedRun(SampleWorld(), SampleId(0), DiskBefore(), DiskAfter(), SampleEntry())
  {
    hide ValidManifest, ValidSource, FileSize, CompactSize, SampleManifest, ManifestOn, SourceOn, ReplaceSource,
         SampleId, SampleUrl, Filler, Spelled, After;
    LoadedBefore();
    AfterIsValid();
    EntryIsValid();
  }

  lemma TooLongAfter()
    ensures ManifestOn(SampleWorld(), DiskAfter()) == Err(ManifestTooLarge)
  {
    hide FileSize, After, SampleEntry, SampleManifest, RawPath, ProcessedPath;
    SizesAfter();
  }

  /** A run from a disk whose manifest loads is bound to succeed if nothing fails, and after its
      commit the manifest is too long to load. */
  ghost predicate Outgrows(world: World, id: string, response: Response, before: Disk, now: Disk, entry: Source) {
    && Injective(world) && ManifestOn(world, before).Ok?
    && Acceptable(world, before, id, true, true, response)
    && CommittedRun(world, id, before, now, entry)
    && ManifestOn(world, now) == Err(ManifestTooLarge)
  }

  /** Main result: a success can make the manifest impossible to load, for a manifest that meets
      every bound of the schema and was itself written in the script's form. */
  lemma CommitCanOutgrowTheLoader()
    ensures Outgrows(SampleWorld(), SampleId(0), Answer(), DiskBefore(), DiskAfter(), SampleEntry())
  {
    hide *;
    WorldIsInjective();
    LoadedBefore();
    RunIsAccepted();
    RunCommits();
    TooLongAfter();
    OutgrowsIf(SampleWorld(), SampleId(0), Answer(), DiskBefore(), DiskAfter(), SampleEntry());
  }

  lemma OutgrowsIf(world: World, id: string, response: Response, before: Disk, now: Disk, entry: Source)
    requires Injective(world) && ManifestOn(world, before).Ok? && Acceptable(world, before, id, true, true, response)
    requires CommittedRun(world, id, before, now, entry) && ManifestOn(world, now) == Err(ManifestTooLarge)
    ensures Outgrows(world, id, response, before, now, entry)
  {
    hide Injective, ManifestOn, Acceptable, CommittedRun;
  }
}
