/** A manifest within all bounds whose one verified entry names the transformation of images for a
    PDF: a reuse checks the files of an entry (`_verify_recorded_source`,
    scripts/prepare_m2_cross_border_eval.py), and reports its transformation as it stands. */
module EditedRecord {
  import opened FileSystem
  import opened ManifestOutgrowth
  import opened ManifestSize
  import opened Options
  import opened PreparationSteps
  import opened SchemaTypes
  import opened SourceManifest
  import opened SourcePreparation
  import opened Strings

  function Edited(): Source { SampleEntry().(transformation := Some(ImageToPdf)) }

  function EditedManifest(): Manifest { Manifest("v1", "v1", [Edited()]) }

  function EditedDisk(): Disk {
    map[ManifestPath := File(Document(EditedManifest(), FileSize(EditedManifest())), false),
        RawPath(Sample(0)) := File(Blob(BODY), true), ProcessedPath(Sample(0)) := File(Blob(BODY), false)]
  }

  lemma EditedIsValid()
    ensures ValidSource(Edited()) && SourceWithinSchema(Edited())
    ensures Edited().id == SampleId(0) && Edited().datasetVersion == "v1" && Edited().maxDownloadBytes == 1024
  {
    hide IsIdentifier, IsVersion, IsSourceGroup, PathText, Distinct, Spelled, SampleId, SampleUrl, Filler;
    EntryIsValid();
    EntryFields();
    ImageToPdfIsIdentifier();
  }

  lemma ImageToPdfIsIdentifier()
    ensures IsIdentifier("image_to_pdf") && Plain("image_to_pdf")
  {
  }

  lemma EditedBytes()
    ensures CompactEntry(Edited()) == 4016 && |Edited().details.languages| == 1
  {
    hide KeptBytes, ValueBytes, Quoted, LanguageBytes, SampleId, SampleUrl, Filler, QuotedOrNull, DigitsOrNull,
         HashOrNull, PathOrNull, LifecycleName, IsIdentifier, Plain;
    RecordedEntryBytes();
    SampleEntryKeeps();
    RecordedTextBytes();
    ImageToPdfIsIdentifier();
    QuotedPlain("image_to_pdf");
    EditedKeeps();
    Grouped(SampleEntry());
    Grouped(Edited());
  }

  lemma EditedKeeps()
    ensures KeptBytes(Edited()) == KeptBytes(SampleEntry()) && Edited().details == SampleEntry().details
  {
    hide Quoted, QuotedOrNull, Flag, Digits, SampleEntry;
  }

  lemma EditedIsLoaded()
    ensures ManifestOn(SampleWorld(), EditedDisk()) == Ok(EditedManifest())
  {
    hide CompactEntry, IndentedEntry, Edited, ValidSource, SourceWithinSchema, Quoted, IsVersion, LanguageBytes;
    EditedIsValid();
    EditedBytes();
    NamesBytes();
    RecordedNamesAreValid();
    VersionIsValid();
    OneEntry(Edited());
    FileIsLonger(EditedManifest());
  }

  lemma VersionIsValid()
    ensures IsVersion("v1")
  {
  }

  lemma OneEntry(source: Source)
    ensures CompactEntries([source]) == CompactEntry(source) && Layout([source]) == 257 + 9 * |source.details.languages|
    ensures Budget([source]) <= source.maxDownloadBytes
  {
    assert [source][1..] == [];
  }

  lemma EditedIsRecorded()
    ensures Recorded(SampleWorld(), Edited(), EditedDisk()) && HasRaw(Edited()) && HasProcessed(Edited())
  {
    hide SampleId, FileSize, EditedManifest;
  }

  /** A run that finds this record succeeds, and reports a PDF that was never an image as converted. */
  lemma RecordedTransformationIsReported()
    ensures var world, disk, id := SampleWorld(), EditedDisk(), Edited().id;
            && Injective(world) && IsRecorded(world, id, disk)
            && SourceOn(world, disk, id) == Some(Edited()) && Edited().format.Pdf?
            && exists r :: Reused(world, id, disk, r) && ReportsDisk(world, id, disk, disk, r) && r.reused
                           && r.transformation.ImageToPdf?
  {
    hide ManifestOn, Recorded, ReportsDisk, EditedDisk, SampleEntry, SampleId, Injective, ReportsPins;
    var world, disk, id := SampleWorld(), EditedDisk(), SampleId(0);
    WorldIsInjective();
    EditedIsLoaded();
    EditedIsValid();
    EditedIsRecorded();
    EditedIsPdf();
    SourceFound(world, disk, id);
    assert SourceOn(world, disk, id) == Some(Edited());
    var r := ResultFromSource(Edited(), true);
    ReusedReports(world, id, disk, r);
    assert Reused(world, id, disk, r) && r.transformation.ImageToPdf?;
  }

  lemma EditedIsPdf()
    ensures Edited().format.Pdf?
  {
  }
}
