# Verification of the ECDAT backend

ECDAT scans artifacts for cryptography, scores what it finds against the arrival of a quantum
computer, and reports. This project models the parts of its backend that hold state, run loops or do
arithmetic, in Dafny 4.11, and proves what they promise. `dafny verify dfyconfig.toml` checks it all.

Code that updates things in place is imperative here too: classes with fields where the source has
classes and tables, methods with loops where it has loops. Each such method is proved against a
specification function or predicate, and the properties are lemmas about those specifications, for
all inputs and all runs. Automatic induction is off for every lemma: its body is its whole proof.

| module | what it models |
|---|---|
| `CipherLinkage`, `CipherHistory`, `CipherOrder`, `CipherFates` | the C detector's tracking of cipher handles and contexts over the calls of a file, against a specification that looks back through the calls, and the order of its reports |
| `BenchmarkMatching` | greedy matching of detected items with ground truth |
| `RateLimiter`, `RateLimitBounds`, `ResetWindows`, `ClockReadings` | the sliding-window limiter, against a limiter that forgets nothing; what it promises about what it admits, before and after resets; and which clock readings it can be trusted with |
| `PdfText`, `Decimal`, `PdfDocument`, `PdfBuilder`, `PdfReader`, `PdfPages` | text escaping, the PDF composer, a reader that opens the document from its end (ISO 32000-1), and what its pages show |
| `IntegerText`, `IntegerGrammar`, `ArchiveLoop`, `LoopTermination`, `Cpio`, `CpioTermination`, `CpioRoundTrip` | extraction from CPIO archives, the integers its headers may hold, when its loop ends, and a printer that it undoes |
| `Spans`, `Ledger`, `Clusters`, `Promotion`, `PromotedRules` | the conservation ledger: claims, exclusions, residue clusters, and the rule generated when a cluster is promoted |
| `AuditChain` | the hash-chained audit log |
| `Risk`, `BulkRescore` | the risk formula and the bulk update in SQL that has to agree with it |
| `Windows`, `Tables`, `TableMeasures` | the window-scanning extractors, the table extractor, and what its measures count |
| `DebtLedger`, `DebtRuns`, `DebtResaving` | the table of residue clusters under coverage saves and guarded patches, runs in which their sessions interleave, and saving the same clusters again |
| `SchemaReachability` | the worklist over schema references |
| `Prelude`, `Positions`, `OrderedDict` | shared definitions |

## Where the code and its documentation differ

The model follows the code.

- The C detector is documented to report every handle or binding that is never consumed
  (`backend/engine/source_c.py:33-38`). An Init whose cipher cannot be resolved pops an unconsumed binding
  without a report (`backend/engine/source_c.py:307-313`). `ContextFallbackIff` and `InitsConserved` count
  these, and `DiscardedInitGoesUnreported` gives a file with a resolved Init and no report.
- The comment on word tables speaks of a mean Hamming distance of at least 12
  (`backend/engine/extract/tables.py:64`). That is the test for the first eight words. The test for extending a
  run is 11 (line 94), and at least 11 is what is proved of a reported run.
- The old ASCII branch of the CPIO reader takes the file size from columns 35 to 46
  (`backend/engine/firmware.py:104`), which is not where that format stores it. The reader is modelled
  as it is; the printer is for the new ASCII format.
- Size fields are read with the host language's integer reader, which accepts a sign. A negative size
  can lead the loop back to a header it has already read, so extraction does not end on every archive.
  `ExtractionEndsIff` says exactly on which it does, `UnsignedEnds` gives a
  sufficient condition on the header fields, and `NegativeSizeNeverEnds` an archive on which it does not.
- A bulk rescore at horizon zero divides by zero, which SQLite answers with null: scores are erased
  for good (`ZeroHorizonErasesScores`). `RescoredAtLastHorizonIff` says which rows come through a run of
  rescores.
- The fields of an audit record are joined by a bar that they may contain themselves. The payload fixes a
  record exactly when they do not, for details written as JSON (`BarFreeIff`, `LogIsFixedIff`,
  `JsonIsNotNested`). Timestamps are outside the chain (`TimestampsAreNotSealed`).
- The limiter reads the clock before it takes the lock (`backend/api/rate_limiter.py:37-40`), so readings
  may run back. `AnswersAgreeIff` and `WindowsFitIff` say on which readings its answers are those of a full
  count, and on which its windows stay within the limit.
- A reset empties the queues, so a window can fill up once more (`ResetRefillsWindow`).
  `WindowsFitAcrossResetsIff` says for any run, resets and readings included, exactly when no window is
  overfull, and `ResetsOverfillIff` what is left of that with a clock that never runs back.
- A promoted cluster is called terminal (`backend/api/routes/residue.py:46`), but the guard and the update
  are two sessions, and another request's may come between. `PromotionSurvivesIff` says exactly when a
  promotion survives, and `LateApplyLosesPromotion` gives the run in which it does not.
- The rule generated for a promoted cluster reports the first occurrence of its bytes
  (`backend/engine/debt.py:152`), which may be an earlier copy. `PromotionClosesExactlyOneClusterIff` says
  when the cluster is closed all the same, and `OverlappingCopyClosesInPart` gives one that is closed in part.
- A cluster may name one record by its identifier and another by its content hash
  (`backend/api/store.py:874-879`), and then saving it again can add its occurrences to the other one.
  `UpsertSettlesIff` and `SaveSettlesIff` say exactly when a second save adds nothing.
- Compiling a report a second time lists the open page twice (`backend/api/pdf_report.py:135-136`) and stamps
  every page again. `StampedOnceIff` says exactly which pages are stamped once over any number of
  compilations; `ListedTwice` and `CompiledTwice` are the failing cases. The builder's own layout has the
  header these suppose (`StandardHeaderShows`).

## Model

| member | source | states |
|---|---|---|
| `CipherLinkage.Detector.TrackCipherFetch` | backend/engine/source_c.py:231-252 | a recognised, assigned fetch reports the handle it displaces unless that was used, and binds the new one; anything else changes nothing |
| `CipherLinkage.Detector.ResolveCipherArg` | backend/engine/source_c.py:277-287 | a nested getter or a bound handle gives its cipher, a handle is marked used, anything else gives nothing |
| `CipherLinkage.Detector.BindEvpCtx` | backend/engine/source_c.py:294-317 | an Init binds the context to the resolved cipher and reports the unconsumed binding it displaces; an unresolvable one drops the binding |
| `CipherLinkage.Detector.HandleUpdate` | backend/engine/source_c.py:339-359 | an Update reports and consumes the binding if it is unconsumed, of the same direction and the output is not NULL |
| `CipherLinkage.Detector.HandleGetParams` | backend/engine/source_c.py:362-376 | get_params reports tag retrieval under an encrypting AEAD binding |
| `CipherLinkage.Detector.HandleDecryptFinal` | backend/engine/source_c.py:379-393 | a decrypting Final reports tag verification under a decrypting AEAD binding |
| `CipherLinkage.Detector.FlushHandles` | backend/engine/source_c.py:205-207 | the unconsumed handles are reported, in insertion order |
| `CipherLinkage.Detector.FlushContexts` | backend/engine/source_c.py:208-210 | the unconsumed contexts are reported, in insertion order |
| `CipherLinkage.DetectCode` | backend/engine/source_c.py:144-212 | the detector's loop and end flush compute the specified list of reports |
| `CipherHistory.LinkageRefinesHistory` | backend/engine/source_c.py:155-203 | for every call sequence, the mutable dictionaries and the reports are what looking back through the history says |
| `CipherHistory.InDetect` | backend/engine/source_c.py:205-212 | a report comes from one call, or from a handle or context left over at the end, and all of those are made |
| `CipherOrder.ReportsInOrder` | backend/engine/source_c.py:155-212 | the whole list of reports: what the calls emit in call order, then the handles left over in the order in which their variables were first fetched into, then the contexts left over in the order of the Inits since which they have been bound |
| `CipherOrder.EarlierHandleFirst` | backend/engine/source_c.py:205-207 | of two variables with handles left over the one fetched into first is reported first |
| `CipherOrder.EarlierContextFirst` | backend/engine/source_c.py:208-210 | of two contexts with bindings left over the one bound for longer, counting from the last unresolvable Init, is reported first |
| `CipherHistory.TransformationIff` | backend/engine/source_c.py:339-359 | an Update reports a transformation exactly when its output is not NULL, the latest Init on the context was resolvable and of its direction, and no emitting Update lies between; the report carries the cipher of that Init, traced to the latest fetch |
| `CipherHistory.TagRetrievalIff` | backend/engine/source_c.py:362-376 | tag retrieval is reported exactly under a latest Init that encrypts with a resolvable AEAD mode, consumed or not |
| `CipherHistory.TagVerifyIff` | backend/engine/source_c.py:379-393 | tag verification is reported exactly under a latest Init that decrypts with a resolvable AEAD mode |
| `CipherFates.HandleFallbackIff` | backend/engine/source_c.py:205-207 | a recognised fetch is reported by fallback exactly when no Init used the handle before the variable was fetched into again |
| `CipherFates.ContextFallbackIff` | backend/engine/source_c.py:307-317 | a resolved Init is reported by fallback exactly when no transformation followed and no unresolvable re-init threw it away |
| `CipherFates.DiscardedInitGoesUnreported` | backend/engine/source_c.py:307-313 | a file that binds a context to a resolved cipher and is reported to contain nothing |
| `CipherFates.InitReportedByOneUpdate` | backend/engine/source_c.py:346-359 | a resolved Init is reported by an Update exactly when it is transformed, and by one Update only |
| `CipherFates.NothingReportedTwice` | backend/engine/source_c.py:144-212 | no two reports of a file are equal |
| `CipherFates.InitsConserved` | backend/engine/source_c.py:294-317 | resolved Inits equal Update reports plus context fallbacks plus unconsumed bindings discarded by an unresolvable re-init |
| `BenchmarkMatching.FindPartner` | backend/bench/public/score.py:186-205 | the inner loop returns a free compatible item, or none when there is none, in whatever order the set is visited |
| `BenchmarkMatching.MatchDetections` | backend/bench/public/score.py:175-209 | for every iteration order the pairs are one-to-one, maximal, each in one file, within the tolerance and of matching family and usage, and the counts add up to detected and truth |
| `BenchmarkMatching.GreedyAtLeastHalf` | backend/bench/public/score.py:175-209 | a maximal matching has at least half as many pairs as any one-to-one matching of compatible items |
| `BenchmarkMatching.GreedyIsOptimal` | backend/bench/public/score.py:193-205 | when items that share one partner share them all, the greedy result is as large as any matching |
| `BenchmarkMatching.ExactScoringIsOptimal` | backend/bench/public/score.py:178-205 | with no line tolerance and no blank field the score does not depend on the iteration order |
| `BenchmarkMatching.MaximalIffSomeOrder` | backend/bench/public/score.py:184-205 | the pairings the two loops find over all iteration orders are exactly the maximal matchings |
| `BenchmarkMatching.OrderIsIrrelevantIff` | backend/bench/public/score.py:184-205 | no iteration order costs a pair, whichever of the items are present, if and only if items that share one partner share them all |
| `BenchmarkMatching.BlankFieldLosesAPair` | backend/bench/public/score.py:194-200 | with a blank family, visiting the same items in two orders finds one pair and two, so the factor of two is tight |
| `RateLimiter.SlidingWindowRateLimiter.IsAllowed` | backend/api/rate_limiter.py:32-56 | the pruning and appending loops compute the specified answer and the new queue of the key |
| `RateLimiter.SlidingWindowRateLimiter.ResetAll` | backend/api/rate_limiter.py:58-61 | every queue is cleared |
| `RateLimiter.PrunedQueueAnswersAsFullHistory` | backend/api/rate_limiter.py:32-56 | over every run with a nondecreasing clock, the pruned queue answers as counting the whole admission history would |
| `ClockReadings.AnswersAgreeIff` | backend/api/rate_limiter.py:37-56 | the readings are nondecreasing if and only if, for every limit and window, a further request of cost 1 after any of them, at a reading no earlier, is answered as a full count would |
| `ClockReadings.ClockRunningBackForgets` | backend/api/rate_limiter.py:37-44 | a run of cost 1 with readings that run back, where the limiter admits and a full count refuses |
| `RateLimitBounds.AdmittedIsHistory` | backend/api/rate_limiter.py:46-56 | with a nondecreasing clock the admissions made are those of the full history |
| `RateLimitBounds.FitsUnlessMisled` | backend/api/rate_limiter.py:42-53 | for any readings, as long as no reading makes the limiter forget one that a window can hold with a later one, no closed window holds more units of a key, admitted since the last reset, than the limit |
| `RateLimitBounds.WindowNeverOverfull` | backend/api/rate_limiter.py:46-53 | over every run with a nondecreasing clock no closed interval of window length holds more units of one key, admitted by the limiter since the last reset, than the limit |
| `ClockReadings.WindowsFitIff` | backend/api/rate_limiter.py:37-53 | without resets: no window is overfull, whatever the limit, the window and the costs, if and only if no reading is followed by one that is higher by more than a third, later one is away from it |
| `ResetWindows.FitsUnlessLapsing` | backend/api/rate_limiter.py:42-61 | as long as no admission is forgotten before another request that one window can hold with it, no window is overfull, counting all admissions, whatever has been reset |
| `ResetWindows.WindowsFitAcrossResetsIff` | backend/api/rate_limiter.py:37-61 | for any keys, resets and clock readings: no window of the given length is overfull, whatever the limit and the costs, if and only if no reset and no later reading makes the limiter forget a request before another that one window can hold with it |
| `ResetWindows.ResetsOverfillIff` | backend/api/rate_limiter.py:58-61 | with a nondecreasing clock some window is overfull, for some limit and costs, if and only if a reset lies between two requests of the key whose readings are at most the window apart |
| `ResetWindows.ResetRefillsWindow` | backend/api/rate_limiter.py:58-61 | a run with one reset whose window holds two units under a limit of one |
| `ResetWindows.WindowAcrossResets` | backend/api/rate_limiter.py:42-61 | a window holds at most r + 1 times the limit, r being the number of resets between its first and its last request of the key |
| `RateLimitBounds.WaitIsOverIff` | backend/api/rate_limiter.py:46-50 | a refused request of any cost within the limit, repeated with no admission on its key in between, is admitted exactly when as many live admissions have left the window as its cost exceeds the room |
| `RateLimitBounds.RetryAfterSufficesIff` | backend/api/rate_limiter.py:47-50 | retry_after is sure to be enough for a cost exactly when the last admission that has to leave does so before it |
| `RateLimitBounds.RetryAfterIsEnoughAndTight` | backend/api/rate_limiter.py:47-50 | for a cost of 1 retry_after is always enough, and one second less is not sure to be |
| `RateLimitBounds.RemainingIsWhatIsLeft` | backend/api/rate_limiter.py:52-56 | after an admission another request of the key at the same reading, of any cost, is admitted if and only if its cost is at most the answer's remaining |
| `RateLimitBounds.RemainingAfterRefusal` | backend/api/rate_limiter.py:47-50 | after a refusal nothing is said to remain, and a request at the same reading is admitted if its cost fits beside the live admissions |
| `RateLimitBounds.RetryAfterRounds` | backend/api/rate_limiter.py:48-50 | retry_after is the least whole number of seconds, at least one, beyond the time the oldest live admission has left, or beyond the window when there is none |
| `PdfText.EscapeIsOnePass` | backend/api/pdf_report.py:22-24 | the three successive replacements equal one character-wise escape |
| `PdfText.ReadEscaped` | backend/api/pdf_report.py:22-24 | read as a literal string (section 7.3.4.2 of ISO 32000-1), the escaped text gives the text back with end-of-line markers normalised, and ends at its own parenthesis |
| `PdfText.RoundTripIff` | backend/api/pdf_report.py:22-24 | the round trip is exact if and only if the text has no carriage return |
| `PdfText.EscapedHasNoBareParenthesis` | backend/api/pdf_report.py:22-24 | every parenthesis of an escaped text is escaped |
| `PdfBuilder.PdfBuilder.NewPage` | backend/api/pdf_report.py:53-56 | the current page is listed if anything was drawn on it, and a blank page begun |
| `PdfBuilder.PdfBuilder.Draw` | backend/api/pdf_report.py:58-98 | a drawing command is appended to the current page, and no other buffer changes |
| `PdfBuilder.PdfBuilder.DrawText` | backend/api/pdf_report.py:100-118 | read off the page as a literal string after its operators, the drawn text gives the text back, and leaves exactly the operators that show it |
| `PdfBuilder.PdfBuilder.StampPages` | backend/api/pdf_report.py:143-160 | every entry of the page list stamps its buffer with the header and its own footer, also when a buffer is listed more than once |
| `PdfBuilder.PdfBuilder.BuildObjects` | backend/api/pdf_report.py:162-190 | the object list is the five fixed objects and, page by page, a dictionary and a stream |
| `PdfBuilder.PdfBuilder.Assemble` | backend/api/pdf_report.py:192-207 | the buffer, the offsets collected on the way and the trailer make up the specified document |
| `PdfBuilder.PdfBuilder.Compile` | backend/api/pdf_report.py:134-207 | compilation succeeds exactly when a page is listed or drawn on; then a reader of the result finds the stamped pages in the order of the list if and only if the offsets fit |
| `PdfBuilder.StampedAgain` | backend/api/pdf_report.py:143-160 | successive compilations stamp as one pass over their page lists, one after the other, would |
| `PdfBuilder.StampedOnceIff` | backend/api/pdf_report.py:143-160 | over the page lists of any number of compilations, a page carries one header and the number of an entry that lists it if and only if no other entry does |
| `PdfBuilder.CompiledTwice` | backend/api/pdf_report.py:135-160 | whatever is listed in between, a second compilation leaves no page of the first stamped once |
| `PdfBuilder.ListedTwice` | backend/api/pdf_report.py:53-56 | compiling again, or beginning a page after a compilation, lists the open page twice; one document then stamps it twice, with consecutive numbers |
| `PdfPages.TextSetupReads` | backend/api/pdf_report.py:109-116 | the words before a shown text are font and size for Tf, the colour for rg, and x and y as the last two of Tm |
| `PdfPages.StampReads` | backend/api/pdf_report.py:144-160 | a stamped page holds the page as drawn between header and footer, and the footer shown reads as its number of the number of pages |
| `PdfPages.PageShowsItsNumber` | backend/api/pdf_report.py:144-160 | over any compilations, a page that one entry alone lists shows the number of that entry |
| `PdfPages.PageSizeAndFonts` | backend/api/pdf_report.py:181-185 | a page dictionary is as wide and as high as the builder was told, names its three fonts and refers to its content |
| `PdfPages.FontsRead` | backend/api/pdf_report.py:171-176 | through the index the three fonts are Helvetica, Helvetica-Bold and Courier |
| `PdfReader.ObjectStands` | backend/api/pdf_report.py:192-196 | every recorded offset points at the bytes of its object, headed by its number |
| `PdfReader.EntryIs20BytesIff` | backend/api/pdf_report.py:201-202 | a cross-reference entry is 20 bytes exactly while its offset is below 10^10 (section 7.5.4 of ISO 32000-1) |
| `PdfReader.StartXrefReads` | backend/api/pdf_report.py:198-206 | startxref points at the cross-reference section (section 7.5.5) |
| `PdfReader.IndexReads` | backend/api/pdf_report.py:198-200 | the cross-reference section announces one entry more than there are objects, the first of them free |
| `PdfReader.TrailerReads` | backend/api/pdf_report.py:203-206 | right after the last entry the trailer's Size is one more than the number of objects, and its Root is object 1 |
| `PdfReader.CatalogReads` | backend/api/pdf_report.py:163-169 | the catalog names the page tree |
| `PdfReader.ObjectsIndexed` | backend/api/pdf_report.py:194-202 | following the index, every object is found at its own entry |
| `PdfReader.StreamReads` | backend/api/pdf_report.py:188-190 | Length equals the stream's byte count, so any stream reads back whole (section 7.3.8) |
| `PdfReader.PageReads` | backend/api/pdf_report.py:179-190 | each page's Contents reference names its own stream |
| `PdfReader.CompiledDocumentReadsBackIff` | backend/api/pdf_report.py:162-207 | following startxref, the cross-reference section, the trailer's Root, the catalog, the page tree, Contents and Length gives back every page's bytes in order, if and only if every offset is below 10^10 |
| `Cpio.NewAsciiEntry` | backend/engine/firmware.py:66-98 | one step over a header of the new ASCII format, with every way of stopping |
| `Cpio.ReadEntry` | backend/engine/firmware.py:60-130 | the format is chosen by the magic, and an unknown one ends the loop |
| `Cpio.ExtractCpio` | backend/engine/firmware.py:48-132 | on every archive on which the loop ends, it returns the files of the specified run |
| `ArchiveLoop.ExtractKeepsLimits` | backend/engine/firmware.py:59 | at most max_files files come out, and the size before the last one is below max_bytes |
| `Cpio.FilesComeFromArchive` | backend/engine/firmware.py:90-94 | every name was given by the name filter and every content is a slice of the archive |
| `CpioTermination.ExtractionEndsIff` | backend/engine/firmware.py:59-132 | for any archive and limits the loop ends if and only if no state of it recurs, and if and only if it ends within `TurnBound` turns, twice the archive's length times the file limit |
| `CpioTermination.UnsignedEnds` | backend/engine/firmware.py:70-98 | when no header has a negative size the offset strictly increases and the loop ends |
| `CpioRoundTrip.PrintedArchiveExtracts` | backend/engine/firmware.py:48-98 | extraction of a printed archive ends and gives exactly the non-empty entries with acceptable names, in order, up to the limits |
| `CpioRoundTrip.TrailerEndsArchive` | backend/engine/firmware.py:81-82 | a trailer entry ends the archive, whatever follows it |
| `CpioRoundTrip.EntryAligned` | backend/engine/firmware.py:84-97 | printed entries are multiples of four bytes long |
| `CpioRoundTrip.OldEntryReads` | backend/engine/firmware.py:99-130 | in the old ASCII format, as the reader takes it, one step is taken over exactly the member whose sizes stand in the columns read |
| `IntegerGrammar.FieldsParseIff` | backend/engine/firmware.py:70-71 | a header field reads as a number if and only if it is blanks, a sign or none, a prefix or none, and digits with single underscores between them, and it is the number they write |
| `CpioRoundTrip.StaysAligned` | backend/engine/firmware.py:84-98 | the offset stays a multiple of four, and grows exactly when a negative size does not take back the header |
| `CpioRoundTrip.NegativeSizeNeverEnds` | backend/engine/firmware.py:70-98 | a size that reads as minus the length of its own header and name leaves the loop where it is |
| `CpioRoundTrip.RoundTripIff` | backend/engine/firmware.py:48-98 | the printed archive gives back all acceptable files if and only if they are within the limits |
| `Ledger.AttributeClaims` | backend/engine/attribute/claim.py:20-43 | the interval join splits the spans, order kept, and maps each attributed span to all findings over it |
| `Ledger.EvaluateExclusions` | backend/engine/attribute/exclude.py:182-313 | the spans are split by the first predicate that applies, and records, with predicate, reason and hash, align one to one with excluded spans |
| `Ledger.VerdictIsFirst` | backend/engine/attribute/exclude.py:198-310 | a span is excluded as a benign table by its hash or the first registered table it shares bytes with, and otherwise by the first of six predicates that applies, with its name and reason |
| `Ledger.Conservation` | backend/engine/attribute/ledger.py:51-54 | each occurrence of a suspicion span is in exactly one part, so the masses add up exactly |
| `Ledger.MoreFindingsNeverHurt` | backend/engine/attribute/ledger.py:130-144 | with non-negative magnitudes, more findings never lower the coverage ratio and never add residue |
| `Clusters.ClusterResidueSpans` | backend/engine/attribute/ledger.py:60-114 | the clusters returned are the connected components of the residue spans, in order and apart, and hold each span once; each has the hull, the mass and the hash of its bytes, a preview of 60 bytes, and all masses add up to the residue's |
| `Clusters.GroupsAre` | backend/engine/attribute/ledger.py:67-96 | each range is the hull of its spans, successive ranges are more than the gap apart, and the groups hold the residue spans |
| `Clusters.ClusterMassesSum` | backend/engine/attribute/ledger.py:81-100 | cluster masses sum to the residue mass |
| `Clusters.ClustersAreComponents` | backend/engine/attribute/ledger.py:74-96 | clusters are exactly the connected components under "at most the gap apart" |
| `Promotion.ComputeLedger` | backend/engine/attribute/ledger.py:117-168 | the ledger's parts and their masses, the coverage ratio, the exclusion records, and clusters as above at a gap of 32; the invariant check always passes |
| `Promotion.OrderDoesNotMatter` | backend/engine/attribute/ledger.py:67-114 | ranges and contents do not depend on the order of the residue spans |
| `PromotedRules.TouchesOnlyIff` | backend/engine/attribute/claim.py:12-17 | a finding that begins and ends no later than a cluster overlaps its spans and no others exactly when it reaches them all, each holding a byte of the artifact, and none before |
| `PromotedRules.RuleRemovesItsCluster` | backend/engine/attribute/ledger.py:67-114 | a finding that overlaps one cluster only removes its mass and leaves the other clusters as they were |
| `PromotedRules.PromotionClosesExactlyOneClusterIff` | backend/engine/debt.py:147-158 | for any residue, promoting a cluster closes exactly that cluster if and only if its spans hold bytes of the artifact and the first occurrence of its bytes ends behind every start in the cluster and begins behind every end before it; then the masses change by exactly its mass and the other clusters stay |
| `PromotedRules.FirstOccurrenceCloses` | backend/engine/debt.py:151-158 | which is so for a cluster of such spans within the artifact when its bytes first occur at its own position |
| `PromotedRules.OverlappingCopyClosesInPart` | backend/engine/debt.py:151-158 | an artifact in which an earlier copy overlaps the cluster, and the rule closes one of its two spans |
| `AuditChain.AuditLog.LogAudit` | backend/api/db.py:108-141 | one record is appended that holds what was audited field by field, linked to the head and sealed by the hash of actor, action, type, id, detail and link in that order |
| `AuditChain.BuiltLogHolds` | backend/api/db.py:100-141 | record i of a built log holds the fields of action i, is linked and sealed, whatever the hash |
| `AuditChain.EarlierRecordsStay` | backend/api/db.py:130-141 | auditing more leaves the earlier records as they were |
| `AuditChain.AuditLog.VerifyIntegrity` | backend/api/db.py:144-179 | verification succeeds exactly on intact chains, and otherwise names the first record whose link or seal is wrong |
| `AuditChain.BuiltLogsVerify` | backend/api/db.py:108-179 | every log built by appending verifies |
| `AuditChain.PayloadSplitsBack` | backend/api/db.py:103-105 | with bar-free fields, the joined payload determines actor, action, type, id, detail and link |
| `AuditChain.HeadHashFixesLog` | backend/api/db.py:100-179 | two verified logs with one head hash are equal record by record, timestamps aside, unless records in them collide |
| `AuditChain.BarFreeIff` | backend/api/db.py:103-105 | payload, link and seal fix a record, against any other whose detail is the writing of one, if and only if actor, action, type and id hold no bar |
| `AuditChain.BarInFieldGoesUnnoticed` | backend/api/db.py:104 | every log with a bar in such a field has a different log of the same length and head, verified under every hash under which it is |
| `AuditChain.LogIsFixedIff` | backend/api/db.py:103-105 | no other log, with whatever details, passes for a log if and only if none of its records has a bar in such a field |
| `AuditChain.JsonIsNotNested` | backend/api/db.py:103 | what these two suppose of details: no JSON writing ends in a bar and another JSON writing |
| `AuditChain.TimestampsAreNotSealed` | backend/api/db.py:164-171 | changing timestamps leaves a log verified |
| `AuditChain.PrefixVerifies` | backend/api/db.py:154-177 | every prefix of a verified log verifies |
| `Risk.LongerHorizonNeverRaisesBand` | backend/engine/risk.py:36-64 | a longer horizon never raises the score or the band, whatever the signs of the factors |
| `BulkRescore.Store.RescoreScanFindings` | backend/api/store.py:371-513 | one call updates exactly the rows the statement selects, returns those it changed as they now are, stores the true histogram, and keeps the horizon when none is given |
| `BulkRescore.SqlIsFormula` | backend/api/store.py:411-444 | at a non-zero horizon the SQL expression is the formula of the risk module |
| `BulkRescore.ChangedRowIs` | backend/api/store.py:445-454 | a row that is changed carries the formula's score, urgency and band, the horizon and the margin, and its factors as they were |
| `BulkRescore.RescoredAtLastHorizonIff` | backend/api/store.py:411-454 | after rescores of any scans at any horizons, a scored non-broken finding has the band of a fresh rescore at the last horizon and its score within 1e-6 if and only if every rescore of its scan at horizon zero found it in the lowest band or in none, and before the last it had a band or a score that moved; broken findings never move |
| `BulkRescore.ZeroHorizonErasesScores` | backend/api/store.py:416-454 | at horizon zero exactly the rows with a band above the lowest lose their score, and no later rescore restores it |
| `BulkRescore.LongerHorizonNeverRaisesCounts` | backend/api/store.py:411-505 | at a longer horizon no cumulative count increases |
| `Windows.ScanWindows` | backend/engine/extract/entropy.py:51-56 | the scan collects the flagged windows on the grid, in order |
| `Windows.MergeWindows` | backend/engine/extract/entropy.py:61-70 | the merge loop computes the specified intervals |
| `Windows.ExtractEntropy` | backend/engine/extract/entropy.py:31-88 | a byte lies in a reported span exactly when it lies in a flagged window of the grid; the spans are in order, apart, at least a window long and as heavy as they are long |
| `Windows.ExtractArx` | backend/engine/extract/arx.py:87-122 | the same for windows of 64 bytes that are dense in ARX opcodes |
| `Windows.DenseIff` | backend/engine/extract/arx.py:92-96 | a window is dense when 35 in 100 of its positions or more hold such an opcode |
| `Windows.MergeIsExact` | backend/engine/extract/entropy.py:61-70 | merged intervals are ordered, apart, and cover exactly what the windows cover |
| `Windows.MassCountsFlaggedBytes` | backend/engine/extract/arx.py:91-122 | the reported magnitude is the number of distinct bytes in some flagged window |
| `Tables.ScanBijections` | backend/engine/extract/tables.py:42-62 | the reported windows are disjoint permutations, and every permutation window overlaps one |
| `Tables.ExtendRun` | backend/engine/extract/tables.py:87-96 | a run has at least eight distinct words, none below 0x100, mean distance at least 11, and goes on to the first word that cannot join |
| `Tables.ExtractTables` | backend/engine/extract/tables.py:42-115 | the ranges of steps 1 and 2 are disjoint and in bounds, each is a permutation window or a maximal run, and none is missed |
| `TableMeasures.WordsAreLittleEndian` | backend/engine/extract/tables.py:68-72 | byte b of word j is the source byte that far after its start |
| `TableMeasures.TotalDistanceIs` | backend/engine/extract/tables.py:19-27 | the distance of a run counts the bit positions in which neighbouring words differ |
| `TableMeasures.QualifiesIff` | backend/engine/extract/tables.py:77-86 | a run begins exactly where eight distinct words, none below 0x100, have five with a non-ASCII byte, two with one in the highest place, and 84 changed bits |
| `TableMeasures.RunMeasures` | backend/engine/extract/tables.py:87-96 | a maximal run has at least eleven changed bits for each pair and goes on to the word that would end that |
| `DebtLedger.Store.Upsert` | backend/api/store.py:873-896 | whichever matching record the query returns, its occurrences are merged; without one the cluster is inserted |
| `DebtLedger.Store.SaveCoverage` | backend/api/store.py:871-896 | a save upserts its clusters one after the other |
| `DebtLedger.UpsertChanges` | backend/api/store.py:873-896 | one record changes, and each of its fields comes from the matching record, the cluster, the target or the time as stated |
| `DebtLedger.ApplyChanges` | backend/api/store.py:938-966 | one record changes, the one the key denotes then, and each field comes from the patch or, where that leaves it out, from the record |
| `DebtLedger.Store.CheckPatch` | backend/api/routes/residue.py:34-51 | the first session of a patch: a missing record, an unjustified or unowned exclusion and a demotion are refused, in that order |
| `DebtLedger.NonBlankIff` | backend/api/routes/residue.py:40-44 | a justification or an owner counts exactly when it holds a character that is not white space |
| `DebtLedger.Store.ApplyPatch` | backend/api/store.py:938-966 | the second session: the record is looked up again and changed, whatever has become of it |
| `DebtLedger.Store.PatchResidueCluster` | backend/api/routes/residue.py:32-56 | the route when no session comes between its two |
| `DebtLedger.PatchTakesEffectIff` | backend/api/routes/residue.py:32-56 | undisturbed, a patch is answered Done if and only if the record exists and the guard's conditions hold, and otherwise by the first condition that fails; then it changes that record, and otherwise nothing |
| `DebtRuns.SessionsAreTheStores` | backend/api/store.py:938-966 | the sessions of a run are those of the store |
| `DebtRuns.RunKeeps` | backend/api/store.py:871-966 | over every interleaving of sessions: hashes unique, identifiers, hashes and occurrences stay, excluded means justified and owned |
| `DebtRuns.PromotionSurvivesIff` | backend/api/routes/residue.py:46-53 | a promotion survives exactly when no patch that does not promote is applied to the record after having been checked before the promotion, or against another record |
| `DebtRuns.LateApplyLosesPromotion` | backend/api/routes/residue.py:34-53 | from any unpromoted record, a run in which a promotion is overwritten by a patch checked before it |
| `DebtResaving.ResavingAddsNothing` | backend/api/store.py:881-894 | saving clusters the table already holds adds no record and no occurrence |
| `DebtResaving.UpsertSettlesIff` | backend/api/store.py:873-896 | upserting a cluster twice adds nothing the second time, however the queries answer, if and only if it names one record at most or every record it names has its occurrences |
| `DebtResaving.SaveSettlesIff` | backend/api/store.py:871-896 | the same for a whole save: if and only if every record one of its clusters names is certain, from the table and the clusters alone, to have its occurrences |
| `DebtResaving.SavingTwiceAddsNothing` | backend/api/store.py:871-896 | where identifiers and hashes agree a second save adds nothing |
| `DebtResaving.AmbiguousClusterSpreads` | backend/api/store.py:874-879 | a cluster that names two records, saved twice, ends up in both |
| `SchemaReachability.CollectSchemaRefs` | backend/scripts/contract_diff.py:55-67 | the recursive collection returns the specified set |
| `SchemaReachability.OwnRefIff` | backend/scripts/contract_diff.py:58-62 | an object refers to a name exactly when its `$ref` is that name behind #/components/schemas/ |
| `SchemaReachability.RefsAreMentions` | backend/scripts/contract_diff.py:58-66 | a name is collected exactly when some object under the node refers to it |
| `SchemaReachability.ReachableSchemas` | backend/scripts/contract_diff.py:70-88 | for every pop order the worklist ends with the least set that holds the path references and is closed under references of known schemas |
| `SchemaReachability.LeastClosedIsReachable` | backend/scripts/contract_diff.py:79-88 | that set is the set of names some chain of references reaches |

## Left out

Abstracted where modelled:

- Tree-sitter parsing and the parsing of cipher names: the C detector gets a list of calls with their arguments classified, and reports carry the position of a call instead of its location.
- The self-contained handlers of the C detector (mbedTLS, wolfSSL, digests): one event that reports or does not.
- SHA-256, canonical JSON, Shannon entropy, lower-casing and the content tests of the exclusion predicates: function parameters, so results hold for each such function; what a result needs of one is a precondition.
- Floating point: magnitudes, scores and clock readings are real numbers, and only the tolerances the code states are kept.
- UTF-8: a PDF text and an archive are sequences of bytes, one character each.
- Clock, lock and sessions: clock readings are parameters in lock order, and a locked section or a database session is one atomic step.
- The fixed texts of a PDF document are fields of a `Layout`: a builder has those of `StandardLayout`, and the results are for any. The reader is told how a page dictionary begins.
- Formatting of coordinates and colours in the PDF composer: they arrive as text; the drawing methods for shapes and badges are one append.
- Cleaning of archive paths: a parameter that gives a name or none.
- Database queries without an order: any matching record may be the one returned.
- Dictionaries keep insertion order in the C detector only; elsewhere they are maps.

Stated weaker or under a condition:

- RateLimitBounds.RetryAfterIsEnoughAndTight: for requests of cost 1 and a positive limit; `RetryAfterSufficesIff` says when retry_after is enough for a larger cost. A cost above the limit is never admitted.
- PdfBuilder.PdfBuilder.Draw: the drawing operators of rectangles, lines and badges arrive as finished text.
- BulkRescore.Store.RescoreScanFindings: SQLite's answer to a division by zero; other databases raise an error. Of the returned rows the risk columns are modelled, and the audit entry is left out.
- Cpio.ExtractCpio: on archives on which the loop ends, which `ExtractionEndsIff` characterises; on the others there is no result to state.
- ClockReadings.AnswersAgreeIff: runs of one key, with one request of cost 1 for each reading; `PrunedQueueAnswersAsFullHistory` has any keys, costs and resets.

Not modelled:

- The private-key floor of `backend/engine/factors.py`, which the bulk rescore does not apply again.
- Step 3 of the table extractor, the source branch of the ARX extractor, and the literal, framing and other extractors.
- Squashfs images and the extraction of archives to disk.
- The report's page layout, certificates and per-artifact coverage rows, and the audit entries written by saves and patches.
- The files and the command line of the debt tool; of a promotion only the generated rule's finding is modelled.
- Routes other than the residue transition, middleware, authentication, scheduling, network probes, other languages' detectors, graph and report builders, and the frontend.
