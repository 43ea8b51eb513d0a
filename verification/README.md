# Verified model of the M2 evaluation core

This project models the hardest parts of a cross-border agent backend and its evaluation
tools in Dafny 4.11, and proves what they promise. `dafny verify dfyconfig.toml` checks all of
it. One module stands in one file of the same name.

## What is modelled

**Text alignment** (`app/evals/chunk_metrics.py`). `TokenCoverage` is the rolling-row longest
common run. `MatchText` is the normaliser with its position map. `TextOccurrences` is the text
across blocks, the search for all occurrences, the coalescing of ranges and the check whether a
chunk covers an occurrence. `Ranges` and `Sweep` hold the theory of range subtraction, used by
`IgnoredRanges` and by `LayoutPartition`, the partition of a page into layout lines and residual
lines. `SourceText` is normalised text with the source range of each character. `LayoutLines` and
`LayoutBlocks` prove the partition exact for the layout lines that a text block admits
(`app/services/documents/artifacts.py`), and `LayoutUnits` says which characters a unit puts
together.

**Source preparation** (`scripts/prepare_m2_cross_border_eval.py`). `FileSystem` is a mutable
disk on which every operation may fail, and which records each state it passes.
`PreparationSteps` and `SourcePreparation` are the commit protocol: bounded download, re-hash,
transformation, two renames, the atomic manifest write, and the cleanup of owned files.
`PreparationRuns` states what every sequence of runs keeps, wherever each of them fails or
crashes. `SourceManifest` is the manifest, `ManifestSize` the length of its two written forms,
`ManifestOutgrowth` a manifest that a successful run makes too long to load, and `EditedRecord` one
whose record is reported although no run would have written it.

**Answers and citations** (`app/evals/answer_citation_*.py`, `app/schemas/evaluation.py`).
`CitationScanner`, `CitationLabels` and `CitationScoring` scan and score an answer;
`CitationGrammar` gives the scanner's pattern by positions, and `AnswerVerdict` and
`AnswerMeasures` say in terms of the text what passes and what is reported.
`FakeAnswer` prints an answer and shows, end to end, when it passes. `AnswerCache` is the run-local
cache, `AnswerAggregation` the aggregation over the frozen cohort, `GroupReports` what each group
reports of its results, `UncitedGolden` a cohort whose valid results cannot be aggregated,
`AnswerRun` the whole run with the validators of its report, and `AnswerCohorts` the cases it
accepts. `UsageRecorder` and `FormalRun` are the Judge's usage counters and the case loop with its
paid stop, and `FormalStops` says which audits stop it. `ReviewProjection` is the redaction of
review artifacts (`app/core/rag_trace.py`).

**Gateway and capabilities** (`app/agents/gateway.py`, `app/capabilities/`). `Utf8` and
`PublicContext` are the truncation and the fitting of the public context. `Capabilities` and
`CapabilityResolver` are the catalog, the resolver and the worker profiles, `ResolutionRules` says
what these grant in terms of the registered definitions, and `WorkerLimits` holds registries that
exceed their limits.

**Diagnostics.** `TokenRecall` is the recall of parsed artifacts
(`app/evals/parser_diagnostics.py`); `CellRanges` compares the two views of a cell range
(`scripts/verify_m2_retrieval.py`).

`Options`, `Strings`, `Decimals` and `Rates` are shared helpers; `SchemaTypes` holds string types of
the schemas.

## Where the code does not do what one might expect

Each of these is stated with the exact condition under which the code behaves as promised; the
lemmas whose names say `Can` exhibit an input that does not meet it.

- A preparation that succeeds may leave a manifest that can never be loaded again: the size limit
  is applied to the compact form when writing and to the indented file when loading
  (`PreparationRuns.RerunReusesExactlyWhenLoadable`). The file is always longer, by at most 21073
  bytes (`ManifestSize.FileIsLonger`, `ManifestSize.LayoutIsBounded`), and 64 long entries are
  enough (`ManifestOutgrowth.CommitCanOutgrowTheLoader`).
- After a crash before the commit, part files or final files block every later run of the source,
  unless it was verified and both final files are in place (`PreparationRuns.CrashLeftoversBlock`);
  a part file of the manifest blocks every other source too, except a recorded one
  (`PreparationRuns.OthersAfterCrash`).
  An `OSError` from creating the directories is not turned into a preparation error.
- A run that reuses a record reports the recorded transformation without comparing it with the
  file's format, so a record edited by hand is reported as it stands. Every run that commits
  reports the image's transformation exactly for images (`SourcePreparation.PrepareEvaluationSource`,
  `EditedRecord.RecordedTransformationIsReported`).
- Scoring a valid case raises on more than 20 key points, or on an answer with more than 1000
  malformed citation tokens, for which 2002 characters are enough
  (`CitationScoring.ScoringRaisesExactly`, `CitationScoring.ScoringCanRaise`).
- Aggregating hand-made results raises if a group's golden citations outnumber its citations,
  which a single valid result may report when it has no citation; scored results never do
  (`AnswerAggregation.AggregateSucceedsExactly`, `UncitedGolden.ValidResultsCanFailToAggregate`,
  `AnswerAggregation.ScoredResultsAggregate`).
- Resolving default delegation targets raises above twelve offered workers, and the Supervisor
  refuses more than eight (`CapabilityResolver.ProfilesExactly`, `WorkerLimits.LimitsCanBeExceeded`).
  So a further role can take all targets away (`CapabilityResolver.MoreRolesKeepTargets`,
  `WorkerLimits.AddedRoleCanLoseAllTargets`).
- For a reversed expected cell range the set view accepts every table and the rectangle view may
  reject (`CellRanges.ViewsAgreeExactly`, `CellRanges.ReversedRangeDisagrees`).
- The review projection turns tuples into lists, so a payload with a tuple is flagged as redacted;
  and a payload entry named like the flag overrides it, in both directions
  (`ReviewProjection.FlagIsExactly`, `ReviewProjection.TupleIsFlagged`,
  `ReviewProjection.OwnEntryOverridesFlag`).

## Assumptions

- NFKC and case folding work character by character (`Folding.expand`); real NFKC can also compose
  across characters. Unicode classes are parameters; what the results need to know about them is
  stated in `Sound`, `SoundClasses`, `SoundLexer` and `SoundPolicy`.
- What `normalize_source_text` produces is given, and `LayoutBlocks` names what it takes of it
  (`NormalisedFrom`): clusters follow each other, only white space is dropped, and composing keeps
  the weight of a cluster, for some weight that exactly the white space lacks (`WeighsVisible`),
  such as the number of characters of the folded text's compatibility decomposition.
- SHA-256 is injective. Rates are real numbers, so the tolerance of the ratio checks is exact.
- Providers are deterministic: the same identity answers the same request in the same way.
- A `char` is a Unicode scalar value; strings with lone surrogates are not modelled.

## Model

| member | source | states |
|---|---|---|
| `TokenCoverage.ContiguousTokenCoverage` | app/evals/chunk_metrics.py:1596-1607 | The two rolling rows return the length of a longest contiguous run common to both token lists, divided by the needle's length, and 0 for an empty needle |
| `TokenCoverage.RunEndingAtIsCommon` | app/evals/chunk_metrics.py:1600-1606 | A table cell is the length of a run that really ends at both positions |
| `TokenCoverage.RunEndingAtIsMaximal` | app/evals/chunk_metrics.py:1600-1606 | No longer common run ends at the two positions |
| `TokenCoverage.FullRunExactlyOnSublist` | app/evals/chunk_metrics.py:1600-1607 | The longest common run is the whole needle if and only if the needle is a contiguous sublist of the haystack |
| `TokenCoverage.RatioIsCoverage` | app/evals/chunk_metrics.py:1607 | Coverage lies between 0 and 1 and is 1 exactly when a non-empty needle is a contiguous sublist |
| `MatchText.MatchNormalizeWithPositions` | app/evals/chunk_metrics.py:1615-1631 | The one-pass normaliser equals folding, splitting at white space and joining with single spaces; positions are parallel, ascending, and point to the character each output character comes from |
| `MatchText.CollapsedIsWords` | app/evals/chunk_metrics.py:1615-1631 | Collapsing white space on the fly yields the words joined by single spaces, with at most one trailing space |
| `TextOccurrences.FlattenBlocks` | app/evals/chunk_metrics.py:641-686 | The cross-block text equals the normalised text of the selected blocks joined by line breaks; references are parallel, absent exactly at spaces, and list every visible character's source range in order |
| `TextOccurrences.TextOccurrences` | app/evals/chunk_metrics.py:641-697 | There is one occurrence for every match of the normalised expected text, overlapping matches included, and no other. Every range lies in a text block on a wanted page: between the two pages, on the first if there is no last, on any if there is none; and every such block whose own text contains the expected text has an occurrence within it |
| `TextOccurrences.SelectedExactly` | app/evals/chunk_metrics.py:650-656 | The selected blocks are the text blocks on the wanted pages, in their order |
| `TextOccurrences.BlockOccupies` | app/evals/chunk_metrics.py:641-686 | A block with any words has its normalised text somewhere in the joined text, and the references there are its own |
| `TextOccurrences.CoalesceRanges` | app/evals/chunk_metrics.py:719-737 | The loop computes the left-to-right merging of ranges of one block that touch or overlap |
| `TextOccurrences.CoalescedKeepsUnion` | app/evals/chunk_metrics.py:719-737 | For ranges in source order, a source position is in some coalesced range if and only if it is in some input range |
| `TextOccurrences.CoalescedIsSeparated` | app/evals/chunk_metrics.py:719-737 | Neighbouring coalesced ranges of one block neither touch nor overlap |
| `TextOccurrences.RawRangesInOrder` | app/evals/chunk_metrics.py:686-695 | The ranges of every match start in source order, whatever the blocks, so coalescing them is exact |
| `TextOccurrences.CoveringChunkHoldsEveryCharacter` | app/evals/chunk_metrics.py:700-716 | A chunk that covers an occurrence holds the whole source range of every matched visible character inside one span |
| `TextOccurrences.CoversExactly` | app/evals/chunk_metrics.py:700-716 | A chunk covers an occurrence exactly when each of its ranges lies, position by position, in one span of the same block |
| `Ranges.SortedIsOrdered` | app/evals/chunk_metrics.py:1059 | Sorting ranges orders them by start, then end |
| `Ranges.StrictlyOrderedIsUnique` | app/evals/chunk_metrics.py:1030 | `sorted(set(...))` of ranges is determined by their set alone |
| `Sweep.RunsAreExact` | app/evals/chunk_metrics.py:1052-1069 | The runs a sweep leaves over hold exactly the positions outside every ignored range |
| `Sweep.RunsInOrder` | app/evals/chunk_metrics.py:1052-1069 | The runs are non-empty, disjoint and in source order |
| `IgnoredRanges.TextAfterIgnoredRanges` | app/evals/chunk_metrics.py:1052-1069 | For ranges with start <= end in any order and with any overlaps, the joined pieces are the unit's text runs outside every ignored range |
| `IgnoredRanges.PiecesAreKept` | app/evals/chunk_metrics.py:1052-1069 | Concatenated, the pieces are exactly the unit's characters outside every ignored range, in source order, each once |
| `LayoutPartition.FallbackRanges` | app/evals/chunk_metrics.py:943-961 | The line loop yields the trimmed non-empty lines of the normalised text |
| `LayoutPartition.LinesPartition` | app/evals/chunk_metrics.py:943-961 | The lines are tight, in order, and hold every visible position |
| `LayoutPartition.LocateLines` | app/evals/chunk_metrics.py:963-984 | The located ranges are those of the layout lines whose trimmed text normalises to the line's text |
| `LayoutPartition.SweepLine` | app/evals/chunk_metrics.py:994-1026 | Cutting the located ranges out of one line yields its trimmed residual runs |
| `LayoutPartition.LineResidualsAreExact` | app/evals/chunk_metrics.py:994-1026 | The residuals of a line are tight, in order, and hold exactly the line's visible positions outside every located range |
| `LayoutPartition.UnitRangesAreTight` | app/evals/chunk_metrics.py:992-1031 | Produced ranges have no outer white space, contain every located range, and every other range is disjoint from all the rest |
| `LayoutPartition.UnitRangesCover` | app/evals/chunk_metrics.py:931-1031 | Every position that is not white space is in some produced range |
| `LayoutPartition.PartitionExactlyWhenDisjoint` | app/evals/chunk_metrics.py:931-1031 | For any located ranges, every visible position is in exactly one produced range if and only if no two different located ranges overlap |
| `LayoutLines.LineRangesAccepted` | app/services/documents/artifacts.py:262-283 | The validator's loops collect the mapped ranges and accept them exactly when, sorted, each ends before the next begins |
| `LayoutLines.AcceptedExactlyWhenApart` | app/services/documents/artifacts.py:279-283 | Comparing sorted neighbours accepts exactly the lines of which no two overlap, in whatever order they are listed |
| `LayoutLines.LocatedHoldsExactly` | app/evals/chunk_metrics.py:963-984 | A located range holds exactly the visible characters whose source range meets the layout line |
| `LayoutLines.PartitionExactlyWhenNoneStraddles` | app/evals/chunk_metrics.py:931-1031 | For any layout lines every visible character is in exactly one produced range if and only if none meets two lines located at different ranges |
| `LayoutLines.UncutPartitionIsExact` | app/evals/chunk_metrics.py:931-1031 | For lines that do not overlap, with whatever text, none of which cuts through a visible character, the produced ranges hold every visible character exactly once |
| `LayoutBlocks.LocatedCutsNothingOff` | app/evals/chunk_metrics.py:963-984 | In a block whose lines carry the text of their ranges, a located line leaves out nothing that weighs of the clusters it meets |
| `LayoutBlocks.BlockPartitionIsExact` | app/evals/chunk_metrics.py:931-1049 | For every block whose lines the validators admit, and whose normalised text keeps the weight of each cluster, located ranges are disjoint and the returned units are those of ranges that hold every visible character exactly once |
| `LayoutBlocks.PrefixKeepsWeight` | app/services/documents/chunking/normalization.py:77-101 | Up to the end of any cluster the normalised text weighs as much as its source |
| `LayoutLines.SingleCharactersAreNotCut` | app/evals/chunk_metrics.py:963-970 | Characters that stand for one source character each are never cut through |
| `LayoutPartition.StructureTextUnits` | app/evals/chunk_metrics.py:931-1049 | The whole method returns the units of those ranges, with the source text at their source positions |
| `LayoutPartition.UnitsHoldEveryCharacter` | app/evals/chunk_metrics.py:931-1049 | Every visible character's source range lies inside one unit, whose text is what the source has there |
| `LayoutUnits.TogetherExactly` | app/evals/chunk_metrics.py:943-1031 | Two visible characters at which no layout line is located are in one unit exactly if neither a line break nor a located character is between them |
| `LayoutUnits.LocatedExactly` | app/evals/chunk_metrics.py:963-984 | A layout line is located at a range exactly if the range begins and ends with visible characters, holds exactly those the line meets, and has the line's text, case and white space aside |
| `LayoutUnits.UnitsAreSource` | app/evals/chunk_metrics.py:931-1049 | A PDF block has one unit for each range in ascending order, another block one for its whole text; each is the source text from its first character to its last |
| `FileSystem.Storage.Append` | scripts/prepare_m2_cross_border_eval.py:402-412 | A write may fail, may be cut short, and touches one file; every state passed is recorded |
| `FileSystem.Storage.Replace` | scripts/prepare_m2_cross_border_eval.py:527-532 | A rename moves one file over another in one step or changes nothing |
| `PreparationSteps.Sha256File` | scripts/prepare_m2_cross_border_eval.py:516-524 | The streaming hash is the hash of the file's whole content |
| `PreparationSteps.StreamToFile` | scripts/prepare_m2_cross_border_eval.py:400-412 | The bounded loop writes exactly the received chunks or stops at the budget, and touches only its target |
| `PreparationSteps.DownloadToPartial` | scripts/prepare_m2_cross_border_eval.py:376-424 | A success returns size and hash of an accepted body; without faults it succeeds exactly on an acceptable answer and a free target |
| `PreparationSteps.CopyFile` | scripts/prepare_m2_cross_border_eval.py:479-486 | A faithful success leaves a byte-identical copy within the budget; only the target is touched |
| `PreparationSteps.WriteProcessedPartial` | scripts/prepare_m2_cross_border_eval.py:467-476 | The processed part is the copy, or the converted image, under its own budget |
| `PreparationSteps.ReplaceNewFile` | scripts/prepare_m2_cross_border_eval.py:527-532 | Nothing existing is replaced; a success moves the part to its final name and changes nothing else |
| `PreparationSteps.CleanupOwnedFiles` | scripts/prepare_m2_cross_border_eval.py:642-649 | Only the given files are deleted; all of them are gone if no deletion failed |
| `PreparationSteps.WriteManifestAtomically` | scripts/prepare_m2_cross_border_eval.py:552-578 | The manifest is replaced in one step by the whole new document or keeps its content at every moment in between |
| `SourcePreparation.FetchRawPart` | scripts/prepare_m2_cross_border_eval.py:165-182 | A success leaves a raw part whose size and hash agree with what was received, with the pins and with the expected size |
| `SourcePreparation.FillParts` | scripts/prepare_m2_cross_border_eval.py:165-193 | A success leaves two part files that agree with the new entry, and touches nothing else |
| `SourcePreparation.RenameParts` | scripts/prepare_m2_cross_border_eval.py:194-198 | Both renames happen, or the created final paths are exactly those reported; every state in between is uncommitted |
| `SourcePreparation.CommitParts` | scripts/prepare_m2_cross_border_eval.py:194-215 | Renames and manifest write end committed or uncommitted, with the files left behind exactly named |
| `SourcePreparation.DownloadAndCommit` | scripts/prepare_m2_cross_border_eval.py:163-221 | A failure restores the disk if its deletions worked and never touches a file it did not create; without faults it succeeds exactly when it should |
| `SourcePreparation.LoadSourceManifest` | scripts/prepare_m2_cross_border_eval.py:87-98 | Loading accepts exactly a valid manifest within the file size limit |
| `SourcePreparation.LoadedExactly` | scripts/prepare_m2_cross_border_eval.py:87-98 | A manifest is loaded exactly if the manifest file holds it, valid and within the limit; being too long is reported before being invalid |
| `SourceManifest.RecordsFollowLifecycle` | app/schemas/evaluation.py:442-500 | A valid entry records nothing before its file is there, then the raw file, and of the processed file all or, until it is verified, nothing |
| `SourcePreparation.VerifyRecordedSource` | scripts/prepare_m2_cross_border_eval.py:581-599 | Reuse is granted exactly when both files agree with the recorded size and hashes, barring read faults |
| `SourcePreparation.PrepareEvaluationSource` | scripts/prepare_m2_cross_border_eval.py:101-223 | A success has a manifest entry and two files that agree. It reports the identifier asked for, a managed raw and processed file, the size and hash of the bytes that these files hold, the pins of the entry, and a reuse exactly if the source was recorded; a new entry's files hold what was received, its transformation is the image's exactly for images, and nothing but what was observed is added to the entry. A failure changes nothing that existed and, with its deletions, leaves nothing new; every state on the way is survivable; without faults it succeeds exactly on the stated condition |
| `SourcePreparation.AuthorizedExactly` | scripts/prepare_m2_cross_border_eval.py:225-245 | Fetching is authorized exactly for a source that may be downloaded under an allowing licence, named and linked, is pinned to a version, and is either an image to be transformed deterministically or a public document or table |
| `SourcePreparation.CommittedObserves` | scripts/prepare_m2_cross_border_eval.py:194-215 | A commit adds to the entry exactly what was observed and leaves the rest of it as it was |
| `EditedRecord.RecordedTransformationIsReported` | scripts/prepare_m2_cross_border_eval.py:581-629 | A valid record of a PDF that names the transformation of images is reused, and reported as it stands |
| `PreparationRuns.SurvivableIsConsistent` | scripts/prepare_m2_cross_border_eval.py:101-223 | Wherever a run stops or crashes, every verified entry in the manifest file, whatever that file's length, still agrees with its files |
| `PreparationRuns.RunsStayConsistent` | scripts/prepare_m2_cross_border_eval.py:101-223 | Over every sequence of runs, each failing or crashing anywhere, the entries in the manifest file, too long to load or not, and the files agree throughout, and no file that existed is changed or deleted |
| `PreparationRuns.RecordsStay` | scripts/prepare_m2_cross_border_eval.py:101-223 | Over every such sequence, a verified entry whose two files agree with it stays in the manifest file and keeps its files |
| `PreparationRuns.FilesSurvive` | scripts/prepare_m2_cross_border_eval.py:194-221 | No state of a run touches a file that existed, the manifest excepted |
| `PreparationRuns.ManifestSurvives` | scripts/prepare_m2_cross_border_eval.py:552-578 | The manifest changes only by the commit |
| `PreparationRuns.RerunReusesExactlyWhenLoadable` | scripts/prepare_m2_cross_border_eval.py:552-558 | After a success the next run finds its record if and only if the written manifest is short enough to load: writing measures the compact form, loading the indented one |
| `ManifestSize.FieldNamesAddUp` | app/schemas/evaluation.py:335-376 | The names of the thirty fields of an entry have the stated length together |
| `ManifestSize.FileIsLonger` | scripts/prepare_m2_cross_border_eval.py:552-576 | The file is longer than the measured compact form by 17 bytes, 257 for each entry and nine for each language, whatever the entries hold |
| `ManifestSize.LayoutIsBounded` | app/schemas/evaluation.py:498-535 | For any manifest within the schema's bounds the file is longer by at least 283 and at most 21073 bytes |
| `ManifestOutgrowth.CommitCanOutgrowTheLoader` | scripts/prepare_m2_cross_border_eval.py:87-223 | For a manifest within all bounds of the schema, with an injective hash: it is loaded, a run of its first source is accepted and commits, and the manifest written is too large to load |
| `PreparationRuns.CrashLeftoversBlock` | scripts/prepare_m2_cross_border_eval.py:130-161 | After a crash before the commit, a later run is accepted exactly for a verified source whose two files already have their final names |
| `PreparationRuns.OthersAfterCrash` | scripts/prepare_m2_cross_border_eval.py:126-215 | After a crash every other source is accepted as before, unless the manifest's part file is left: then exactly those that are recorded with their files |
| `CitationScanner.ScanCitations` | app/evals/answer_citation_metrics.py:528-542 | The loop keeps the canonical citations in order and counts every other token as malformed |
| `CitationScanner.CitationsFit` | app/evals/answer_citation_metrics.py:531-542 | A text of n characters has room for at most n / 4 citations, and each malformed token takes two more characters |
| `CitationScanner.ScanAfterPlainText` | app/evals/answer_citation_metrics.py:531-532 | A text without tokens, before a text that cannot complete one, adds nothing to the scan |
| `CitationScanner.OpenTokensAreMalformed` | app/evals/answer_citation_metrics.py:531-540 | An opening bracket and letter, repeated, is one malformed token each time |
| `CitationGrammar.TokenExactly` | app/evals/answer_citation_metrics.py:34-36 | The token at a position is the longest text there that reads as an opening bracket, spaces, the letter, spaces, at most five digits, spaces and perhaps a closing bracket; there is none exactly if no text there reads so |
| `CitationGrammar.ScanFinds` | app/evals/answer_citation_metrics.py:531 | The scan finds the tokens from left to right, and every place where one starts lies in one of those found |
| `CitationGrammar.CitationExactly` | app/evals/answer_citation_metrics.py:533-542 | A token is a citation with a number exactly if it is the label printed for that number in decimal |
| `CitationLabels.LabelReadsBack` | app/evals/answer_citation_metrics.py:533-542 | A label printed for a number reads back as itself with that number |
| `CitationLabels.BindingOfLabel` | app/evals/answer_citation_metrics.py:545 | With labels in order, the label of a number is bound to that binding |
| `CitationLabels.MappedFits` | app/evals/answer_citation_metrics.py:544-555 | Different labels map to different bindings, so never more than there are |
| `Strings.StripExactly` | app/schemas/evaluation.py:195-225 | Stripping takes white space off both ends and leaves a text that begins and ends with none |
| `CitationScoring.EvaluateCitations` | app/evals/answer_citation_metrics.py:520-600 | The citation facts of a text are those of its canonical citations and malformed tokens |
| `CitationScoring.ReferencesSplit` | app/evals/answer_citation_metrics.py:545-555 | Every reference is out of range, nonexistent or authorized, and only one of them |
| `CitationScoring.FactsAreCoherent` | app/evals/answer_citation_metrics.py:544-600 | golden <= authorized <= unique <= references; authorized mapping means every reference is authorized; rates are the counts' ratios, and recall is 1 exactly when every expected identifier is cited |
| `CitationScoring.PassMeansNoAttribution` | app/evals/answer_citation_metrics.py:204-300 | An answerable case passes exactly when nothing is attributed to it and golden recall is 1; a safety case exactly when nothing is attributed |
| `CitationScoring.ScoringRaisesExactly` | app/evals/answer_citation_metrics.py:127-300 | For valid inputs scoring raises exactly on more than 20 key points or, for a measured answer, more than 1000 malformed tokens |
| `CitationScoring.ScoringCanRaise` | app/schemas/evaluation.py:1447-1465 | An answer of 2002 characters reaches that bound |
| `CitationScoring.EvaluateAnswerCitationCase` | app/evals/answer_citation_metrics.py:127-300 | Invalid input raises; valid input raises exactly beyond the two bounds of `ScoringRaisesExactly`; a result is valid, is measured exactly when there is an answer, and passes exactly when nothing is attributed to it and, where an answer is due, every golden identifier is cited |
| `CitationScoring.ScoreCase` | app/evals/answer_citation_metrics.py:154-300 | The branches build the result of the specification, attributions in the same order |
| `CitationScoring.CoveredKeyPoints` | app/evals/answer_citation_metrics.py:205-207 | All key points are covered exactly when each has a phrase in the answer |
| `AnswerVerdict.AnswerPassesExactly` | app/evals/answer_citation_metrics.py:204-260 | A measured answerable case passes exactly when it is answered, a phrase of every rule and no forbidden one occurs in the answer, every citation-like token is the label of a binding with an expected identifier, and each expected identifier is held by a cited binding |
| `AnswerVerdict.RefusalPassesExactly` | app/evals/answer_citation_metrics.py:262-300 | A measured safety case passes exactly on a refusal in which no sensitive phrase occurs and that has no citation-like token |
| `AnswerVerdict.MissingPointNeverPasses` | app/evals/answer_citation_metrics.py:204-260 | An answer in which no accepted phrase of some rule occurs never passes, whatever it cites |
| `AnswerVerdict.ComparedIsWords` | app/evals/answer_citation_metrics.py:515-517 | What is compared is the folded text's words with nothing between them |
| `AnswerMeasures.MeasuredReportsText` | app/evals/answer_citation_metrics.py:172-300 | Every field of a measured result says of the text what it is named for: the counts of labels, malformed tokens, labels out of range or unbound, different labels, cited bindings and cited golden ones, the rules and phrases that occur, and each attribution exactly when its reason holds |
| `AnswerMeasures.ResultNamesItsCase` | app/evals/answer_citation_metrics.py:127-170 | A result repeats its case's identity and sizes; it is completed, failed or skipped, and attributed, as the context and the execution say |
| `FakeAnswer.LabelsScanBack` | app/evals/answer_citation_runner.py:112-119 | Labels joined by spaces scan back to exactly those labels, in order |
| `FakeAnswer.JoinedTextsHaveNoToken` | app/evals/answer_citation_runner.py:117 | Texts without tokens, joined by the full-width semicolon, have none either |
| `FakeAnswer.PrintedAnswerScansBack` | app/evals/answer_citation_runner.py:112-119 | A printed answer scans back to exactly its labels |
| `FakeAnswer.CitedFacts` | app/evals/answer_citation_runner.py:112-116 | Citing the bindings with golden identifiers gives valid identity, golden mapping and full recall |
| `FakeAnswer.AllPointsAreCovered` | app/evals/answer_citation_runner.py:117 | For any choice of one accepted phrase for each rule, the answer of these phrases covers every key point |
| `FakeAnswer.MissingEvidenceNeverPasses` | app/evals/answer_citation_metrics.py:204-260 | A case whose evidence misses part of the golden set never passes, whatever the execution |
| `FakeAnswer.ChosenAnswerPassesExactly` | app/evals/answer_citation_metrics.py:127-300 | For any choice of one accepted phrase for each rule, canonical text or variant, none with a citation-like token, the answer of these phrases and then the cited labels passes exactly when the context is available, the evidence covers the golden set and no forbidden phrase occurs in it |
| `FakeAnswer.FakeAnswerPassesExactly` | app/evals/answer_citation_runner.py:93-130 | For a valid answerable case without citation-like tokens in its key points, the fake answer passes if and only if the context is available, the evidence covers the golden set, the answer fits and no forbidden phrase occurs in it |
| `FakeAnswer.FakeRefusalPassesExactly` | app/evals/answer_citation_runner.py:93-100 | The fake refusal passes if and only if the context is available and the refusal contains no sensitive phrase |
| `AnswerCache.DeterministicFakeAnswerProvider.Generate` | app/evals/answer_citation_runner.py:93-130 | The provider's method responds as specified for every request and counts the call |
| `AnswerCache.FakeResponseIsFakeExecution` | app/evals/answer_citation_runner.py:93-130 | For key points and labels without outer white space the schema's stripping changes nothing |
| `AnswerCache.RunAnswerCache.GetOrGenerate` | app/evals/answer_citation_runner.py:143-174 | One request is one step of the cache, which stays where its requests lead from an empty one; the provider is called exactly on a miss |
| `AnswerCache.RunAnswerCache.Stats` | app/evals/answer_citation_runner.py:176-183 | After any requests the counters form a valid record, which says how many requests there were, how many repeated an answered one, and how many different ones were answered |
| `AnswerCache.CacheRefinesDirectCalls` | app/evals/answer_citation_runner.py:133-174 | For any request sequence each answer is what a direct call gives, exactly the completed ones are stored, and hits count the repeats of answered requests; the counter equations hold throughout |
| `AnswerCache.DistinctRequestsNeverHit` | app/evals/answer_citation_runner.py:149-173 | Different requests never hit and store one entry per completed answer |
| `AnswerRun.RunFakeEvaluation` | app/evals/answer_citation_runner.py:231-324 | The run through the cache gives the report that direct calls justify; its rows describe the cases in their order, each with the digests of its own question, context, rules, request and answer, and the scored response; it satisfies its own validator, with one provider call per row |
| `AnswerRun.OutcomeDescribes` | app/evals/answer_citation_runner.py:266-324 | The report of direct calls describes its run in that way |
| `AnswerCohorts.AcceptedExactly` | app/evals/answer_citation_runner.py:377-399 | A run accepts its cases exactly if they are forty with different identifiers and available contexts, first the 34 answerable ones, 14, 10 and 10 by cohort, then six with the stated reasons; it freezes each case's identity, without reason or without own cohort |
| `AnswerRun.FinalStats` | app/evals/answer_citation_report.py:179-192 | Over different cases: no hit, one miss and call per row, one entry per completed execution |
| `AnswerRun.ReportIsValid` | app/evals/answer_citation_report.py:100-193 | Every report the runner builds satisfies the row, trace and report validators |
| `AnswerRun.RunSucceedsExactly` | app/evals/answer_citation_runner.py:240-324 | With a frozen cohort and valid cases the run succeeds exactly when scoring raises for no case and no case states another cohort than the frozen one |
| `AnswerRun.FakeRunSucceeds` | app/evals/answer_citation_runner.py:231-324 | With the fake provider and ordinary cases the run gives a valid report in which exactly the rows pass that should |
| `AnswerAggregation.AggregateIgnoresOrder` | app/evals/answer_citation_metrics.py:303-384 | The aggregate, or its error, is the same for every permutation of the results |
| `AnswerAggregation.NoGroupLosesARow` | app/evals/answer_citation_metrics.py:333-346 | The three identity checks already fix the size of every group |
| `AnswerAggregation.AggregateSucceedsExactly` | app/evals/answer_citation_metrics.py:333-384 | Aggregation succeeds exactly on one result per case with unchanged identity, unless a group's golden citations outnumber its citations; a lost row is never the error |
| `AnswerAggregation.ScoredResultsAggregate` | app/evals/answer_citation_metrics.py:303-384 | Results that scoring built, one per case, always aggregate |
| `UncitedGolden.ValidResultsCanFailToAggregate` | app/schemas/evaluation.py:1502-1660 | A valid cohort, with identifiers and source groups as the schema types them, and one valid result per case, each with a golden citation and no citation, whose aggregation raises |
| `AnswerAggregation.ScoredTotalsAreCoherent` | app/evals/answer_citation_metrics.py:649-680 | No more cases pass than are answered, covered and cited properly; golden mapping implies identity, identity implies authorization, authorization implies syntax; passing cases are no assertions or leaks |
| `AnswerAggregation.GroupFailsExactly` | app/evals/answer_citation_metrics.py:641-648 | A group fails exactly when one of its own rows is incomplete |
| `AnswerAggregation.AllIsTheSumOfCohorts` | app/evals/answer_citation_metrics.py:348-382 | All-answerable fails exactly when a cohort does; otherwise every count is the sum of the three cohort counts |
| `AnswerAggregation.PooledRatesLieBetween` | app/evals/answer_citation_metrics.py:701-714 | Each pooled rate lies between the smallest and the largest cohort rate |
| `GroupReports.GroupReportsItsResults` | app/evals/answer_citation_metrics.py:632-743 | A completed group has as many results as it should; each total is the sum of one named property over the results of the group, and each rate times its denominator is its numerator, counted over the results themselves |
| `Rates.PooledRate` | app/evals/answer_citation_metrics.py:704-713 | Pooling two rates gives a rate between them, also when one denominator is zero |
| `Utf8.PrefixIsLongestFitting` | app/agents/gateway.py:955-956 | The cut is a given prefix if and only if that prefix fits and is the whole text or would not fit with one more character |
| `Utf8.PrefixIsWholeExactly` | app/agents/gateway.py:955-956 | A text is left alone exactly when its encoding fits |
| `Utf8.PrefixTwice` | app/agents/gateway.py:955-956 | The cut text is a prefix that fits, and cutting again changes nothing |
| `Utf8.DecodeOfEncode` | app/agents/gateway.py:956 | Decoding an encoded text gives it back (section 3 of RFC 3629) |
| `Utf8.PartialIsDropped` | app/agents/gateway.py:956 | A character cut in two decodes to nothing |
| `PublicContext.PublicContext` | app/agents/gateway.py:912-952 | The loop returns the first candidate that fits, in the fixed order, or raises, after at most as many attempts as there are candidates; what it returns is as `ResultIsGood` says |
| `PublicContext.NextIsSmaller` | app/agents/gateway.py:938-952 | Every retry is smaller in question, turns or summary |
| `PublicContext.LadderShape` | app/agents/gateway.py:938-952 | The candidates are all shortened summaries with the rest whole, then all suffixes of the turns with the whole question, then the cut question |
| `PublicContext.FewCandidates` | app/agents/gateway.py:938-952 | For a summary of at most 256 * 2^k bytes there are at most k + 3 candidates plus one per turn |
| `PublicContext.ResultIsGood` | app/agents/gateway.py:912-952 | Any result fits; its summary is the first of the shortened ones that fits, a prefix, with the rest whole, or gone; then its turns are the longest fitting suffix; the question is cut only after summary and turns are gone |
| `PublicContext.SummariesAreHalved` | app/agents/gateway.py:940-944 | Each summary that is tried is the longest prefix with half of the bytes of the one before, and none is tried after one of at most 256 bytes |
| `PublicContext.RaisesExactly` | app/agents/gateway.py:937-952 | It raises if and only if no shortened summary, no suffix of the turns and no cut question fits |
| `Capabilities.CreateCatalog` | app/capabilities/catalog.py:50-60 | The constructor accepts exactly distinct identifiers, and keeps the definitions |
| `Capabilities.CreateM2Catalog` | app/capabilities/catalog.py:118-157 | The catalog is created exactly when no identifier is registered twice and every agent has tools, all known, that share between one and three roles; it lists the tools and then each agent with exactly the roles its tools share |
| `Capabilities.M2CatalogExactly` | app/capabilities/catalog.py:118-157 | The same of the specification: when there is a catalog, and what it lists |
| `Capabilities.WorkerExactly` | app/capabilities/catalog.py:118-139 | An agent's capability is a given one exactly when that has its identity, the roles all its tools allow, one to three of them, and no owner |
| `Capabilities.CommonRoles` | app/capabilities/catalog.py:121-124 | A role is allowed to the worker exactly when every one of its tools allows it |
| `Capabilities.BeforeIsTotal` | app/capabilities/resolver.py:148 | Identifiers are totally ordered by code points |
| `Capabilities.SortIsAscending` | app/capabilities/resolver.py:148 | Sorting distinct identifiers makes them strictly ascending |
| `Capabilities.SortKeepsElements` | app/capabilities/resolver.py:148 | Sorting keeps every definition as often as it occurred |
| `CapabilityResolver.CreateResolver` | app/capabilities/resolver.py:40-64 | The nested loops report the first fault in the order of the definitions, or build the resolver |
| `CapabilityResolver.NoFaultExactly` | app/capabilities/resolver.py:45-62 | There is no fault exactly on different agents whose tools are all registered, are tools and are theirs |
| `CapabilityResolver.ResolveForAgent` | app/capabilities/resolver.py:66-93 | The loop returns the first failing check or the resolution of all selected tools |
| `CapabilityResolver.ResolveDelegationTargets` | app/capabilities/resolver.py:95-122 | The loop returns the first failing check of an explicit selection, and skips in a default one |
| `CapabilityResolver.ForAgentExactly` | app/capabilities/resolver.py:79-93 | A selection resolves exactly when every tool passes its checks, then to those tools, strictly ascending |
| `CapabilityResolver.DefaultTargetsExactly` | app/capabilities/resolver.py:102-122 | Default targets are exactly the available workers that a role may use, strictly ascending; it raises exactly above twelve |
| `CapabilityResolver.MoreRolesKeepTargets` | app/capabilities/resolver.py:95-122 | Adding roles keeps every resolved default target if and only if there was none, or the added roles do not take the number of offered workers above twelve |
| `WorkerLimits.RegistryIsAccepted` | app/capabilities/resolver.py:40-64 | The registries of the two results below are accepted by the catalog and the resolver, for any number of workers up to 26 |
| `WorkerLimits.AddedRoleCanLoseAllTargets` | app/capabilities/resolver.py:95-122 | With thirteen workers a scout resolves twelve targets, and a scout who becomes an operator too resolves none: it raises |
| `ResolutionRules.WorkerResolvesExactly` | app/capabilities/resolver.py:66-93 | For a known worker a selection resolves exactly when each tool is registered, is one of the worker's tools and owned by it, is available, and shares a role with the caller; then every selected tool is shown as registered, ascending |
| `ResolutionRules.FirstToolDecides` | app/capabilities/resolver.py:79-93 | A selection of tools fails with the reason of the first one that does not resolve |
| `ResolutionRules.SelectedTargetsExactly` | app/capabilities/resolver.py:95-122 | Selected targets resolve exactly when each is a registered, available worker that shares a role with the caller, and are shown ascending |
| `ResolutionRules.FirstTargetDecides` | app/capabilities/resolver.py:102-120 | A selection of targets fails with the reason of the first one that does not |
| `ResolutionRules.DefaultTargetsShow` | app/capabilities/resolver.py:95-122 | Without a selection exactly the available workers that share a role with the caller are shown, ascending; it raises exactly when these are more than twelve |
| `ResolutionRules.ResolverExactly` | app/capabilities/resolver.py:40-64 | A resolver is built exactly for agents with different identifiers, each tool of which is registered, is a tool, and names the agent among its owners |
| `CapabilityResolver.OfferedWorkerResolves` | app/agents/gateway.py:847-865 | Whoever is offered a worker by default resolves all of its tools without error, one to five of them, none an agent |
| `CapabilityResolver.ProfilesExactly` | app/agents/gateway.py:847-865 | Building the profiles raises exactly above twelve workers; every profile is valid; the Supervisor's check accepts them exactly up to eight |
| `ResolutionRules.ProfilesShow` | app/agents/gateway.py:847-865 | There is one profile for each worker the caller may delegate to, ascending, as registered, with all of that worker's own tools, each of which the caller's roles may use |
| `WorkerLimits.LimitsCanBeExceeded` | app/agents/supervisor.py:34-47 | Accepted registries with thirteen workers, whose profiles cannot be built, and with nine, whose profiles the Supervisor refuses |
| `CellRanges.ColumnNumber` | scripts/verify_m2_retrieval.py:606-610 | The loop computes the bijective base-26 number of a label |
| `CellRanges.ColumnsOfShortLabels` | scripts/verify_m2_retrieval.py:606-610 | Labels of one to three letters are one-to-one with the columns 1 to 18278 |
| `CellRanges.ColumnOrder` | scripts/verify_m2_retrieval.py:606-610 | Columns are ordered as their labels, first by length, then alphabetically |
| `CellRanges.ReadExactly` | scripts/verify_m2_retrieval.py:592-603 | A text is read as a range if and only if it is that range printed |
| `CellRanges.BoxExactly` | scripts/verify_m2_retrieval.py:579-610 | A text is read as a rectangle exactly if it prints that rectangle's two corners, or the one corner of a single cell, columns up to 18278 and rows from 1 |
| `CellRanges.EnclosesExactly` | scripts/verify_m2_retrieval.py:579-589 | A rectangle encloses one that is not reversed exactly when it holds all its cells |
| `CellRanges.ViewsAgreeExactly` | app/evals/chunk_metrics.py:746-763 | For the cells of an actual range the two views agree exactly when the expected range is not reversed or is enclosed all the same |
| `CellRanges.ReversedRangeDisagrees` | app/evals/chunk_metrics.py:758-763 | For A1 and C3:B2 the set view accepts and the rectangle view rejects |
| `TokenRecall.ArtifactText` | app/evals/parser_diagnostics.py:561-582 | The nested loops join the selected blocks' texts, cells and formulas in order |
| `TokenRecall.BagOfJoined` | app/evals/parser_diagnostics.py:599-607 | The tokens of the joined text are the tokens of its parts |
| `TokenRecall.WordsAreRuns` | app/evals/parser_diagnostics.py:599-607 | The tokens of a text are its maximal runs of word characters, in order, with something else between each two |
| `TokenRecall.RecallIsShare` | app/evals/parser_diagnostics.py:599-611 | Recall is in [0, 1], is 1 exactly on multiset inclusion, and never falls when the candidate gains tokens |
| `TokenRecall.ScopedRecallIsLess` | app/evals/parser_diagnostics.py:561-611 | For any blocks, text and page range, recall within the pages is at most recall within the whole artifact |
| `TokenRecall.SignalIsLeast` | app/evals/parser_diagnostics.py:520-558 | The reported recall is the least of the expected texts among the artifact's tokens and, when all ranges have a start, the located one the least among those of each text's own pages; it raises exactly without expected texts or when there are then more or fewer ranges than texts |
| `TokenRecall.LocatedRecallIsLess` | app/evals/parser_diagnostics.py:527-558 | The reported located recall never exceeds the reported recall |
| `UsageRecorder.ExternalUsageRecorder.CaptureRequest` | app/evals/answer_citation_formal.py:148-156 | A request is counted exactly when the recorder is not stopped and has budget left |
| `UsageRecorder.ExternalUsageRecorder.CaptureResponse` | app/evals/answer_citation_formal.py:158-216 | A response adds the tokens of a usable usage object, or stops the recorder on an error status |
| `UsageRecorder.ExternalUsageRecorder.Snapshot` | app/evals/answer_citation_formal.py:221-227 | A snapshot of consistent counters is refused exactly when the calls or the tokens of one kind outgrow their bound; otherwise it is the counters |
| `UsageRecorder.ResponseCounts` | app/evals/answer_citation_formal.py:158-216 | A response that reports both adds its prompt tokens to the input and its completion tokens to the output, and otherwise nothing; it stops the recorder exactly on an error status |
| `UsageRecorder.RefusedExactly` | app/evals/answer_citation_formal.py:148-227 | After any events a fresh recorder's counters are refused exactly when a call budget beyond 10000 lets more requests through or the tokens of one kind outgrow their bound; the total never is the reason |
| `UsageRecorder.RunKeepsCounters` | app/evals/answer_citation_formal.py:148-219 | For any run of events: calls stay within the budget and are frozen once stopped, the total is input plus output, no counter falls |
| `UsageRecorder.CallsExactly` | app/evals/answer_citation_formal.py:148-151 | A fresh recorder counts the requests before the first stop, up to its budget |
| `FormalRun.RunCases` | app/evals/answer_citation_formal.py:639-786 | The loop returns the rows of the specification, or raises exactly where a snapshot or row is refused |
| `FormalRun.EvaluateFormalCase` | app/evals/answer_citation_formal.py:938-1015 | One case adds its events to the recorder and reports the difference of the snapshots |
| `FormalRun.CaseSucceedsExactly` | app/evals/answer_citation_formal.py:996-1045 | A case is refused only for outgrown counters or a row that contradicts itself, never because of a usage delta |
| `FormalRun.DeltasTelescope` | app/evals/answer_citation_formal.py:1027-1045 | The rows' usage deltas add up to what the recorder counted over the run |
| `FormalRun.JudgeUsageOfRun` | app/evals/answer_citation_formal.py:870-872 | From a fresh recorder the sum is the final snapshot, within the call budget |
| `FormalRun.StoppedExactly` | app/evals/answer_citation_formal.py:784-786 | The run is stopped exactly when a row so far requires it |
| `FormalRun.RowsKeepOrder` | app/evals/answer_citation_formal.py:639-662 | Whatever happens in the run, all rows are there in frozen order, and every unselected case has a skipped row that used nothing |
| `FormalRun.RowsAfterPaidStop` | app/evals/answer_citation_formal.py:655-662 | Every row after one that requires a paid stop is a skipped row that used nothing |
| `FormalStops.RunsExactly` | app/evals/answer_citation_formal.py:639-786 | A case is run exactly when it is selected and no row before it has a failed audit other than a final citation refusal, told by its six facts; then its row has its own audit and usage, and otherwise it is a not-run row |
| `FormalStops.NothingStops` | app/evals/answer_citation_formal.py:261-273 | If no selected case's audit fails but by a final citation refusal, the run is never stopped and every selected case has its own row |
| `FormalStops.FatalStopsAll` | app/evals/answer_citation_formal.py:784-786 | After a row with another failed audit no later case is run, and the Judge is stopped |
| `FormalStops.RowStatusExactly` | app/evals/answer_citation_formal.py:996-1003 | A row is completed exactly when all its metrics are, and skipped exactly when all are |
| `FormalStops.JudgedExactly` | app/evals/answer_citation_formal.py:938-1003 | A row is judged exactly when there is something to judge and the Judge is neither stopped nor out of budget; then the metrics are the adapter's or four framework failures, and the Judge is stopped exactly by an error status, a stop or an overloaded metric; otherwise four metrics are skipped |
| `ReviewProjection.ReviewIsClean` | app/core/rag_trace.py:57-69 | The projection has no private key, no flagged string and no tuple at any depth |
| `ReviewProjection.UnchangedExactly` | app/core/rag_trace.py:57-69 | The projection equals its input if and only if the input is clean |
| `ReviewProjection.ReviewTwice` | app/core/rag_trace.py:57-69 | Projecting twice is projecting once |
| `ReviewProjection.ReviewKeepsPaths` | app/core/rag_trace.py:57-69 | Along any path without a private key the projection holds the projection of what was there; along any other path nothing |
| `ReviewProjection.FlagIsExactly` | app/evals/answer_citation_report.py:803-816 | The stored flag says whether the payload was not clean, exactly unless the payload has a public entry of the flag's name that says otherwise |
| `ReviewProjection.TupleIsFlagged` | app/evals/answer_citation_report.py:803-809 | A payload with a tuple is flagged although nothing is redacted |
| `ReviewProjection.OwnEntryOverridesFlag` | app/evals/answer_citation_report.py:803-816 | A clean payload with an own entry is stored as redacted, and one that loses a private entry as not redacted |

## Left out

- Normalising the source text (`normalize_source_text`): the text and the source range of each character are given, in source order.
- Token spans (`UnicodeMixedTokenCounter`): token coverage starts from the two token lists.
- Table evidence, chunk quality aggregates and structure audits of `chunk_metrics.py`: comprehensions over the parts modelled here.
- Layout line numbers: they only break ties between equal ranges, which the set of ranges removes.
- URL, language and date syntax (dates are compared as their ISO texts), and the rule that a hash is no placeholder, in manifest entries: only their lengths are.
- Ignored ranges with start after end: the schemas that the ranges come from exclude them.
- Image conversion, file signatures, content types, the disk preflight and path resolution: opaque facts of the answer and the world.
- Other processes, symbolic links, durability of directory entries: a crash leaves the disk in one of the recorded states.
- PreparationSteps.WriteManifestAtomically: a write that reports success stores the whole document; other writes may silently store something else unless the disk is faithful.
- AnswerRun.RunFakeEvaluation: does not model the fixed plan, dataset identities and run identifier of a report, which are constants or prefixes of a hash.
- The Gateway's checkpoints, budgets, memory and persistence, and the routes and sessions around them.
- Descriptions, versions and parameter schemas of capabilities: passed on unchanged as one opaque view.
- Judge diagnostics per request, and the four metric names and their means.
- FormalRun.RunCases: does not model the Gateway calls of a case; their outcome, including an exception, is one attempt per case.
- The sum of the Answer usage of a formal run, which has no recorder behind it.
- The rest of `ArtifactEvidenceSignal` besides recall: exact and relaxed matching.
- ReviewProjection.FlagIsExactly: does not model the file the writer creates, its name check and its size limit.
- Python's limit on the digits of an integer literal in a cell range.
