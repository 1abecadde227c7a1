# Verified model of the Quantara data pipeline

Quantara acquires market data, canonicalizes and hashes it, derives bars, features and folds from it, and publishes every stage
under content addresses. This project models the parts of that pipeline where an error would go unnoticed, and proves what they
promise. `dafny verify dfyconfig.toml` checks everything.

What is modelled, and the main results:

- **Publication** (`Publication`, `PublicationProtocol`, `PublicationFiles`): the write-once object store, staged commits and the
  current pointer as a transition system with many object writers, one publisher per lane, readers, torn writes and crashes after
  every operation. The pointer always names a complete intact commit, nothing committed changes, readers never fail, and a rerun
  converges. The file operations as code leave exactly what the protocol's steps leave.
- **Evaluation lock** (`EvaluationLock`): mutual exclusion, ownership of removal and single release over every interleaving of
  any number of attempts with failures and crashes.
- **B4 bootstrap** (`SplitMix`, `BlockBootstrap`, `NearestRank`, `BootstrapB4`, `Calendar`, `ReportRounding`): a full-period generator with unbiased bounded
  draws, prefix sums equal to materialized indices, the multiset digest, nearest ranks, and a fraction renderer that rounds twice
  yet equals one rounding.
- **Ridge regression and ranks** (`Solver`, `Ridge`, `Ranks`) over exact reals: Gauss-Jordan elimination decides singularity and finds
  the unique solution, the fit is the unique minimum, tie-averaged ranks give the pairwise win rate.
- **Exact decimals** (`Decimals`, `Q18`, `NumericPolicy`): the numeric text policy, the kernel's digit-string renderer against the
  value-based oracle, and round trips through both.
- **Canonical JSON and row hashing** (`KeyOrder`, `JsonStrings`, `Jcs`, `JcsInjective`, `JcsCanonical`, `JcsReader`, `JcsSerializer`, `Utf8`, `Framing`, `RowFraming`,
  `RowHashing`): canonical text decides equality and reads back, the hashed stream determines the rows, and the Python and Rust forms admit, refuse and
  hash alike.
- **Kraken selector** (`KrakenWindow`, `KrakenLines`): the streaming window filter depends on the bytes only and keeps exactly the
  source lines in the window.
- **Bars and gates** (`Bars`, `Aggregation`, `Quality`, `DerivedQuality`, `DerivedBars`, `PassPreserved`): exact aggregation, conservation,
  agreement of nested timeframes, what PASS means in both directions, and parent PASS leading to derived PASS.
- **Folds and features** (`Folds`, `Features`, `Leakage`): the tiling, the research table, and a two-run theorem that says exactly when a fold
  has no look-ahead.
- **Holm step-down** (`Holm`): the sequential loop is closed testing, for families of any size.
- **Backfill** (`BackfillEvidence`, `BackfillAttribution`, `Backfill`): batches under any completion order and visibility of failures, with
  one-to-one attribution of evidence.
- **Kline series** (`Deduplication`, `KlineRecords`, `KlineParsing`, `KlineGaps`): byte-exact deduplication that ignores record order, and gap manifests that
  partition the grid.

Code that updates state in place is modelled as classes and methods over the same fields, arrays and loops, each proved against a
function or relation that the lemmas are about. SHA-256 is a parameter everywhere; a statement that needs it not to collide says
on which inputs. Clocks, the environment's choices (which operation fails, what a reader interleaves with, in which order futures
complete) and the seeds of random streams are parameters.

Where code and documentation differ the model follows the code. The message of the canonical row check speaks of nulls, but the
check refuses them (`src/quantara/hashing.py:229-242`), and so does the kernel. A Kraken member whose last line has no line break, or
whose last payload is cut short, is accepted by the selector itself; only a truncated timestamp is refused
(`src/quantara/series_acquisition.py:281-283`). A stale evaluation lock is never taken over: after a crash between creating and
releasing it every later attempt is refused until someone removes the file. An embargo shorter than the label horizon does leak,
and `Leakage.FoldLeaksExactlyWhen` gives the exact condition.

## Model

| member | source | states |
|---|---|---|
| PublicationProtocol.EveryStepSafe | src/quantara/publication.py:74-229 | every operation of every actor, every torn write and every crash keeps the invariant and neither changes nor removes a stored object or committed directory |
| PublicationProtocol.CurrentAlwaysReads | src/quantara/publication.py:157-229 | in every state of every run the pointer is absent or names a commit with its marker, a content file that parses, and every listed object present under its own SHA-256; no object anywhere is stored under another digest |
| Publication.VerifiesExactlyWhen | src/quantara/publication.py:176-210 | a commit graph verifies exactly when marker, content, and every listed object under its own digest are there; nothing else is looked at |
| Publication.TamperingIsFound | src/quantara/publication.py:200-209 | overwriting or removing one object makes a verified commit fail exactly when that object is listed and is gone or has another hash |
| Publication.VerifiedExactlyWhen | src/quantara/series_pipeline.py:65-92 | the lane counts as published exactly when pointer, manifest digest, content and every identity field agree |
| PublicationProtocol.NothingCommittedChanges | src/quantara/publication.py:74-154 | between any two moments of a run no object and no committed directory has changed |
| PublicationProtocol.ReaderGetsItsCommit | src/quantara/publication.py:213-229 | a reader interleaved between its pointer read and its graph checks never fails, and the commit it verifies was current when it read the pointer |
| PublicationProtocol.AttemptOutcome | src/quantara/series_pipeline.py:240-290 | from any sound store an attempt run alone is a no-op exactly when the lane already verifies, fails exactly when its commit name or an object address is taken by other bytes, and otherwise leaves the pointer, with the manifest's digest, on a commit of exactly its marker, manifest and content |
| PublicationProtocol.RerunConverges | src/quantara/series_pipeline.py:240-290 | whatever was interleaved or crashed before, one more run of the same job ends with the pointer on that job's commit, complete and with every listed object intact (where the hash does not collide on its payloads) |
| PublicationFiles.LaneFiles.StoreObject | src/quantara/publication.py:74-115 | creates the object if its address is free, reuses it if the bytes agree, refuses with the files unchanged if they differ or the kind is unknown |
| PublicationFiles.LaneFiles.StageCommit | src/quantara/publication.py:127-138 | writes exactly the named files into the attempt's staging directory and nothing else |
| PublicationFiles.LaneFiles.PublishCommit | src/quantara/publication.py:141-154 | refuses an existing commit without a change; otherwise moves the staged directory, now marked, to its hash |
| PublicationFiles.LaneFiles.WriteCurrent | src/quantara/publication.py:163-173 | replaces only the pointer |
| PublicationFiles.LaneFiles.VerifyCommitGraph | src/quantara/publication.py:176-210 | succeeds exactly when marker and content are there, the content parses, and every listed reference has a known kind, is stored, and hashes to its own digest |
| PublicationFiles.LaneFiles.ReadAndVerifyCurrent | src/quantara/publication.py:213-229 | succeeds exactly when a pointer exists and the commit it names passes those same checks, and returns that commit and its content |
| PublicationFiles.LaneFiles.VerifiedCurrent | src/quantara/series_pipeline.py:65-92 | the pipeline's own check: commit complete, manifest bytes hash to the pointer's digest, manifest and content parse alike, lane identity holds |
| PublicationFiles.LaneFiles.PublishSeries | src/quantara/series_pipeline.py:240-290 | the publishing code leaves exactly the files and outcome of the protocol's operations run one after another |
| EvaluationLock.AtMostOneHolder | src/quantara/evaluation_pipeline.py:986-1064 | over every interleaving with failures and crashes at most one attempt stands between acquiring and releasing, and the lock file then carries its id |
| EvaluationLock.OnlyCreatorRemoves | src/quantara/evaluation_pipeline.py:986-1008 | a step that makes the lock file disappear is taken by the attempt that created it |
| EvaluationLock.ReleasedAtMostOnce | src/quantara/evaluation_pipeline.py:986-1008 | no attempt releases twice |
| EvaluationLock.StaleLockStays | src/quantara/evaluation_pipeline.py:1027-1062 | a lock whose creator is gone stays for ever and nobody acquires after it: safety is kept at the price of manual clean-up |
| EvaluationLock.EvaluationAttempt.Acquire | src/quantara/evaluation_pipeline.py:1027-1062 | create-exclusive, write the owner, clean up one's own file on failure: exactly the protocol's steps, whichever operation fails |
| EvaluationLock.EvaluationAttempt.ReleaseLock | src/quantara/evaluation_pipeline.py:986-1008 | re-reads the file and unlinks only its own id, exactly as the protocol's release steps |
| SplitMix.MixIsBijective | src/quantara/bootstrap_b4.py:56-61 | the output finalizer has a two-sided inverse on 64-bit words |
| SplitMix.DrawSpelledOut | src/quantara/bootstrap_b4.py:56-61 | a draw is one addition, two multiplications and three xor-shifts with the program's constants, shifts being divisions by powers of two |
| SplitMix.XorByDigit | src/quantara/bootstrap_b4.py:56-61 | exclusive-or of unbounded naturals, binary digit by binary digit |
| SplitMix.FullPeriod | src/quantara/bootstrap_b4.py:48-61 | from every state each word is drawn at exactly one of 2^64 positions |
| SplitMix.RefusedRunIsShort | src/quantara/bootstrap_b4.py:63-72 | at most 2^64 mod bound draws in a row can be refused |
| SplitMix.AcceptedDrawsAreUniform | src/quantara/bootstrap_b4.py:63-72 | over one period every residue is hit by exactly floor(2^64/bound) accepted words |
| SplitMix.FirstAcceptedIsUnique | src/quantara/bootstrap_b4.py:63-72 | the draw the loop stops at is the only one that is accepted after refused ones alone |
| SplitMix.SplitMix64.NextU64 | src/quantara/bootstrap_b4.py:56-61 | one draw of the stream, and the state advanced by one step |
| SplitMix.SplitMix64.Below | src/quantara/bootstrap_b4.py:63-72 | terminates from every state within (2^64 mod bound)+1 draws with the residue of the first accepted draw; refuses bounds outside 1..2^64 |
| BlockBootstrap.PositionsCover | src/quantara/bootstrap_b4.py:141-160 | successful materialization gives exactly the wanted number of positions, all inside the grid |
| BlockBootstrap.PositionAt | src/quantara/bootstrap_b4.py:141-160 | resampled position k is starts[k div block] + k mod block |
| BlockBootstrap.CoversExactlyWhen | src/quantara/bootstrap_b4.py:141-160 | starts cover the grid exactly when there are enough and every needed one is eligible |
| BlockBootstrap.EligibleStartsCover | src/quantara/bootstrap_b4.py:128-160 | enough eligible starts never run out |
| BlockBootstrap.MaterializeResampledIndices | src/quantara/bootstrap_b4.py:141-160 | lists, for every hour, the start of its block plus the offset in it; refused exactly on a bad geometry, too few starts, or an out-of-range start that is needed |
| BlockBootstrap.Prefixes | src/quantara/bootstrap_b4.py:385-396 | prefix sums of values and of valid entries at every hour |
| BlockBootstrap.SpanTotals | src/quantara/bootstrap_b4.py:415-442 | a difference of two prefix sums is the sum and the valid count over that block |
| BlockBootstrap.AggregatePrefixes | src/quantara/bootstrap_b4.py:415-442 | for every grid and starts list, equals summing and counting over the materialized indices, with the same errors, and adds each position once to the running difference array |
| BlockBootstrap.TotalIsWeighted | src/quantara/bootstrap_b4.py:415-442 | a resampled total is every hour's value times how often that hour was resampled |
| BlockBootstrap.ValidAtCounts | src/quantara/bootstrap_b4.py:385-442 | the denominator is the number of resampled positions that hold a value |
| BlockBootstrap.TalliedMultiplicities | src/quantara/bootstrap_b4.py:415-452 | the running sum of the difference array at k is how often k was resampled |
| BlockBootstrap.MultiplicitiesAddUp | src/quantara/bootstrap_b4.py:445-452 | multiplicities add up to the number of resampled positions |
| BlockBootstrap.MultisetDigest | src/quantara/bootstrap_b4.py:445-452 | the hashed text lists exactly the nonzero multiplicities |
| BlockBootstrap.EntriesListOccurring | src/quantara/bootstrap_b4.py:445-452 | one line position:multiplicity for every position that occurs, in ascending order, and no other |
| BlockBootstrap.DigestTextDetermines | src/quantara/bootstrap_b4.py:445-452 | the hashed text determines every multiplicity |
| NearestRank.NearestRankInterval | src/quantara/bootstrap_b4.py:229-240 | the ends are elements with the least ranks r with 40r >= n and 40r >= 39n, in order; an empty list is refused |
| NearestRank.SortedPositionHasRank | src/quantara/bootstrap_b4.py:229-240 | the value at sorted position p has rank p+1, ties included |
| NearestRank.RankIsCounted | src/quantara/bootstrap_b4.py:229-240 | a value has a rank exactly when fewer than that many elements are smaller and at least that many are not larger |
| NearestRank.RankIsMonotone | src/quantara/bootstrap_b4.py:229-240 | a rank names one value only and larger ranks never smaller values |
| BootstrapB4.SampleBlockStarts | src/quantara/bootstrap_b4.py:128-138 | draws the least number of starts whose blocks cover the grid: (count-1)*block < hours <= count*block; succeeds exactly on a valid geometry |
| BootstrapB4.DrawnInTurn | src/quantara/bootstrap_b4.py:128-138 | start k is one bounded draw from the state the k draws before it left |
| BootstrapB4.EveryStartIsUsed | src/quantara/bootstrap_b4.py:128-160 | the block of every drawn start begins at an hour the resampled year still needs |
| BootstrapB4.NominalHours | src/quantara/bootstrap_b4.py:114-125 | 24 times the days between two firsts of January, by the Gregorian count of leap years |
| Calendar.YearLength | src/quantara/bootstrap_b4.py:114-125 | counting leap years by the 4/100/400 rule and by quotients agrees for every year |
| BootstrapB4.ResampleYear | src/quantara/bootstrap_b4.py:309-322 | one replicate of one year: stream, tally, exact sum and valid count over the drawn positions |
| BootstrapB4.RunReplicate | src/quantara/bootstrap_b4.py:306-332 | pooled exact sums over all years, or a year without one valid observation |
| BootstrapB4.PooledAddsUp | src/quantara/bootstrap_b4.py:306-332 | the pooled numerator and denominator are the years' own sums, each counted once |
| BootstrapB4.PrepareYears | src/quantara/bootstrap_b4.py:272-299 | observed totals, or the first year with a wrong length or too few valid hours |
| BootstrapB4.PValue | src/quantara/bootstrap_b4.py:335-336 | one plus the number of replicates whose mean exceeds the observed mean by at least the observed mean, over one plus the resamples; in (0, 1] |
| BootstrapB4.Digests | src/quantara/bootstrap_b4.py:337-339 | after all replicates each year's digest is that of its resampled multiset, whose counts sum to resamples times hours |
| BootstrapB4.Bootstrap | src/quantara/bootstrap_b4.py:257-348 | every replicate mean is the exact pooled mean over the positions its blocks stand for; interval, p-value and digests as above; every failure names a condition that really fails |
| ReportRounding.RoundingTwice | src/quantara/bootstrap_b4.py:243-254 | half-even to a fine enough grid and then to the coarse one equals rounding once |
| ReportRounding.QuotientHasPrecision | src/quantara/bootstrap_b4.py:243-254 | at the program's precision the division shows exactly that many digits |
| ReportRounding.RenderedFractionIsRoundedOnce | src/quantara/bootstrap_b4.py:243-254 | for every fraction the rendering is a single half-even rounding of the exact value to 18 places |
| ReportRounding.RenderedFractionIsNearest | src/quantara/bootstrap_b4.py:243-254 | the rendering stays within half a unit of the last place, ties to even |
| ReportRounding.ZeroPrintsUnsigned | src/quantara/bootstrap_b4.py:243-254 | the text is the unsigned zero exactly for values that round to zero, negative ones included |
| Solver.PivotRow | src/quantara/training_metrics.py:121-121 | the first row with the largest entry in the column |
| Solver.Swap | src/quantara/training_metrics.py:124-125 | exchanges two rows of the augmented matrix in place |
| Solver.NormalizeRow | src/quantara/training_metrics.py:126-128 | divides the pivot row from the pivot on |
| Solver.EliminateRow | src/quantara/training_metrics.py:129-136 | subtracts the pivot row from another row in place |
| Solver.EliminateColumn | src/quantara/training_metrics.py:120-136 | one round makes a column of the identity and keeps the solution set |
| Solver.NoPivotMeansSingular | src/quantara/training_metrics.py:120-123 | a zero pivot can only mean that the matrix is singular |
| Solver.Solve | src/quantara/training_metrics.py:117-137 | signals a zero pivot exactly on singular matrices and otherwise returns the one and only solution |
| Ridge.PositiveLambdaIsRegular | src/quantara/training_metrics.py:168-175 | with lambda > 0 the normal matrix is never singular |
| Ridge.LossOfChange | src/quantara/training_metrics.py:140-181 | any other intercept and coefficients cost the fitted loss plus a nonnegative excess |
| Ridge.FitIsTheMinimum | src/quantara/training_metrics.py:140-181 | the fitted parameters are the unique minimum of the ridge objective |
| Ridge.ZeroVarianceMeansConstant | src/quantara/training_metrics.py:159-164 | a column has zero variance exactly when it is constant |
| Ridge.StandardizedHasUnitVariance | src/quantara/training_metrics.py:159-167 | where the scale is an exact root, a standardized feature has mean square one |
| Ridge.SumOf | src/quantara/training_metrics.py:104-108 | the accumulated sum |
| Ridge.MeanOf | src/quantara/training_metrics.py:111-114 | the mean |
| Ridge.Moments | src/quantara/training_metrics.py:157-164 | means and deviations of every column, or the first column whose deviation is zero |
| Ridge.NormalEquations | src/quantara/training_metrics.py:168-174 | fills the normal matrix and the right-hand side |
| Ridge.FitRidgeMatrix | src/quantara/training_metrics.py:140-181 | with lambda > 0 and nonzero deviations it never hits a zero pivot, and intercept and coefficients uniquely minimize the objective over all choices |
| Ranks.AverageRanks | src/quantara/evaluation_metrics.py:132-154 | the in-place group loop gives every element (smaller + (equal+1)/2) |
| Ranks.GroupRank | src/quantara/evaluation_metrics.py:141-152 | the middle position of a run of ties is that rank |
| Ranks.RanksTotal | src/quantara/evaluation_metrics.py:132-154 | ranks add up to n(n+1)/2 whatever the ties |
| Ranks.PositiveRankSum | src/quantara/phase_auc_diagnostic.py:86-95 | the rank sum of the positives is their wins, ties one half, plus what they earn among themselves |
| Ranks.WinsBounded | src/quantara/phase_auc_diagnostic.py:86-95 | wins lie between 0 and the number of pairs |
| Ranks.AreaSymmetry | src/quantara/phase_auc_diagnostic.py:68-95 | the area lies in [0,1] and swapping labels gives one minus it |
| Ranks.Auc | src/quantara/phase_auc_diagnostic.py:68-95 | equals the pairwise win rate for every score list with both classes, is undefined for a single class, and refuses lists of different length |
| Decimals.ParseExponentDigits | kernel/src/lib.rs:250-350 | the exponent loop gives the value, or gives up exactly past the limit |
| Decimals.DisplayRoundTrip | kernel/src/lib.rs:250-390 | reading a printed nonzero value restores sign, coefficient and exponent |
| Q18.RenderFinite | kernel/src/lib.rs:413-445 | the digit-string renderer equals the value-based oracle on every finite decimal, rejections included |
| Q18.RenderReads | src/quantara/hashing.py:187-216 | rendered text reads back as exactly the rendered quanta |
| Q18.RenderInjective | src/quantara/hashing.py:187-216 | different values never share a rendering |
| Q18.RenderRoundTrip | kernel/src/lib.rs:447-481 | render, parse: the value survives |
| Q18.ZeroText | src/quantara/hashing.py:187-216 | zero has one rendering, without a sign |
| NumericPolicy.AcceptedFits | src/quantara/parsing.py:140-167 | every accepted text is exact, nonnegative and fits decimal128(38,18) |
| NumericPolicy.PlainAccepted | src/quantara/parsing.py:140-167 | a text without exponent is accepted exactly when its whole part has no needless zero and at most 20 places, its fraction ends within 18 places but for zeros, and both take at most 38 digits |
| NumericPolicy.PlainIsExact | src/quantara/parsing.py:140-167 | and is then worth its digits divided by ten for every fractional place |
| NumericPolicy.ScientificAccepted | src/quantara/parsing.py:111-167 | a scientific text is accepted exactly when it has no minus sign and its digits, with the point moved by the exponent, are in that budget |
| NumericPolicy.NothingElseAccepted | src/quantara/parsing.py:140-148 | every accepted text is of one of the two forms |
| NumericPolicy.RenderedIsAccepted | src/quantara/parsing.py:140-167 | rendered text of a value below 10^38 quanta is accepted again, as that value |
| NumericPolicy.ScientificIsExact | src/quantara/parsing.py:116-137 | an accepted scientific form is worth exactly its mantissa digits times its power of ten |
| NumericPolicy.KernelAgrees | kernel/src/lib.rs:413-481 | the kernel's text path through the printer equals the oracle |
| NumericPolicy.AcceptedTextRenders | src/quantara/parsing.py:140-167 | for every accepted text both renderers succeed with the same text, and parsing that text gives the value back |
| KeyOrder.KeyOrderIsUnitOrder | src/quantara/jcs.py:65-66 | sorting by UTF-16-BE bytes is sorting by code units (section 3.2.3 of RFC 8785) |
| KeyOrder.KeyOrderIsFirstDifference | src/quantara/jcs.py:65-66 | one key comes before another exactly when, at the first place where their UTF-16 code units differ, its unit is smaller or it has ended |
| KeyOrder.PrefixComesFirst | src/quantara/jcs.py:65-66 | a key comes before every longer key that starts with it |
| KeyOrder.KeyOrderIsStrictTotal | src/quantara/jcs.py:65-66 | the key order is a strict total order on strings |
| JsonStrings.QuotedPrefix | src/quantara/jcs.py:32-43 | a quoted string ends where it ends: text and rest are determined |
| JsonStrings.QuotedHasNoControls | src/quantara/jcs.py:32-43 | quoting leaves no control character (section 3.2.2.2 of RFC 8785) |
| JsonStrings.EscapeTable | src/quantara/jcs.py:17-43 | two characters exactly for the seven named ones, six with lower-case digits for other controls, everything else as it is |
| JcsInjective.TextPrefix | src/quantara/jcs.py:46-80 | two canonical texts followed by a delimiter agree only for the same value and the same rest |
| JcsCanonical.CanonicalTextDecides | src/quantara/jcs.py:46-87 | canonical text is equal exactly for values that are equal up to member order |
| JcsCanonical.InsertionOrderIsIrrelevant | src/quantara/jcs.py:64-74 | inserting the same members in another order does not change the text |
| JcsReader.CanonicalTextReadsBack | src/quantara/jcs.py:46-87 | an independent JSON reader gives every float-free value back from its canonical text, up to the order of members, with nothing left over |
| JcsReader.CanonicalTextIsOrdered | src/quantara/jcs.py:64-74 | the members of every object in the canonical text come in that order, at every depth |
| JcsReader.ValueReads | src/quantara/jcs.py:46-80 | the same before any delimited continuation: the reader stops where the text ends |
| JcsReader.CharsRead | src/quantara/jcs.py:32-43 | reading escapes undoes writing them, character by character |
| JcsCanonical.TextHasNoControls | src/quantara/jcs.py:46-87 | canonical text holds no line break or other control character |
| JcsSerializer.QuoteString | src/quantara/jcs.py:32-43 | the piecewise loop gives the quoted text |
| JcsSerializer.Serialize | src/quantara/jcs.py:46-80 | appends exactly the canonical text to the shared list, and fails exactly when a float occurs |
| JcsSerializer.SerializeItems | src/quantara/jcs.py:57-63 | arrays, item by item with commas between |
| JcsSerializer.SerializeMembers | src/quantara/jcs.py:64-74 | objects, in key order |
| JcsSerializer.Canonicalize | src/quantara/jcs.py:83-87 | the canonical text of every float-free value and of no other; reading it gives the same value with every object's keys in ascending order of their code units |
| Utf8.EncodeInjective | src/quantara/hashing.py:245-257 | different texts have different UTF-8 bytes |
| Utf8.DecodeEncoded | src/quantara/hashing.py:245-257 | a decoder that follows the announced lengths (section 3 of RFC 3629) gives every text back |
| Utf8.AsciiByteAbsent | src/quantara/hashing.py:245-257 | a NUL or line feed byte occurs only for that character |
| Framing.TerminatedInjective | src/quantara/hashing.py:245-257 | terminated pieces can be read back in one way only |
| RowFraming.ValidQ18IsPattern | kernel/src/lib.rs:105-114 | the kernel's test by splitting at the first point is the Python pattern |
| RowFraming.RenderedIsQ18 | src/quantara/hashing.py:339-346 | everything the renderer prints is admitted as a decimal column |
| RowFraming.CanonicalAdmits | src/quantara/hashing.py:229-242 | a canonical row is admitted exactly when it is 23 strings, integers or booleans |
| RowFraming.ResearchAdmits | src/quantara/hashing.py:320-351 | a research row is admitted exactly as an integer time, five eighteen-digit decimals or nulls, and an integer direction or null |
| RowFraming.LineReadsBack | src/quantara/hashing.py:245-257 | the line hashed for an admitted row, decoded and read as JSON, is that row, columns in order |
| RowFraming.HashedBytes | src/quantara/hashing.py:245-257 | the hash is taken over domain, NUL, lower-cased fingerprint, NL and one line a row; it is refused exactly with the first faulty row's fault |
| RowFraming.StreamDetermines | src/quantara/hashing.py:245-257 | the hashed stream determines domain, lower-cased fingerprint and row list, in both directions; the two row kinds never share a stream |
| RowFraming.ContentHashDecides | src/quantara/hashing.py:245-257 | where SHA-256 does not collide on the two streams, equal content hashes mean equal content |
| RowHashing.HashPrefix | kernel/src/lib.rs:14-21 | domain NUL fingerprint NL |
| RowHashing.CanonicalRowArray | src/quantara/hashing.py:229-242 | admits a row exactly when it has no fault, and otherwise reports its leftmost fault |
| RowHashing.ResearchRowArray | src/quantara/hashing.py:320-351 | the same for the seven research columns, with nulls and decimal columns |
| RowHashing.PythonContentHash | src/quantara/hashing.py:245-257 | hashes exactly the specified stream, or reports the first fault |
| RowHashing.UpdateJcsString | kernel/src/lib.rs:23-46 | character by character, feeds exactly the quoted text's UTF-8 |
| RowHashing.UpdateJcsScalar | kernel/src/lib.rs:56-69 | feeds the canonical text of a scalar |
| RowHashing.UpdateCanonicalRow | kernel/src/lib.rs:71-103 | feeds while validating: same fault as the Python form, and on success exactly its line |
| RowHashing.UpdateResearchRow | kernel/src/lib.rs:116-177 | the same for research rows |
| RowHashing.KernelContentHash | kernel/src/lib.rs:181-197 | meets the same specification as the Python form: same acceptance, same fault, same bytes |
| KrakenWindow.Window.constructor | src/quantara/series_acquisition.py:235-243 | starts with empty counters and all five years at zero |
| KrakenWindow.Window.EndPrefix | src/quantara/series_acquisition.py:256-270 | the byte that ends a timestamp counts the row and keeps it when it lies in the window on the hourly grid |
| KrakenWindow.Window.Feed | src/quantara/series_acquisition.py:245-279 | a block of any size, payload handled in slices, leaves the state of the byte-at-a-time automaton or its first fault |
| KrakenWindow.Window.Summary | src/quantara/series_acquisition.py:281-291 | refuses a truncated timestamp, otherwise the counters |
| KrakenWindow.RunConcat | src/quantara/series_acquisition.py:245-279 | running two blocks is running their concatenation |
| KrakenLines.CutsDoNotMatter | src/quantara/series_acquisition.py:245-279 | every split of the same bytes gives the same state or the same fault |
| KrakenLines.RunReads | src/quantara/series_acquisition.py:245-279 | the automaton accepts, rejects and computes exactly what reading the stream line by line says |
| KrakenLines.ReadKeepsEveryByte | src/quantara/series_acquisition.py:245-279 | the lines of a readable stream and the unfinished rest are the stream |
| KrakenLines.AddedLines | src/quantara/series_acquisition.py:258-276 | counters and output are those of the selected lines, byte for byte |
| KrakenLines.YearsAddUp | src/quantara/series_acquisition.py:265-291 | the five year counts sum to the kept rows |
| KrakenWindow.YearOfIsCalendarYear | src/quantara/series_acquisition.py:265-265 | a row is counted for a year exactly when its instant lies between that year's first second and the next one's |
| KrakenWindow.WindowIsFiveYears | src/quantara/series_acquisition.py:259-289 | the window is the calendar years 2020 to 2024 in UTC, which have 43848 hours |
| KrakenWindow.StampIsWrittenNumber | src/quantara/series_acquisition.py:258-258 | a timestamp prefix stands for the number its digits write |
| KrakenLines.StampsOnGrid | src/quantara/series_acquisition.py:256-291 | kept timestamps are slots of the 43848-hour grid |
| KrakenLines.StampsAtMostRows | src/quantara/series_acquisition.py:281-291 | duplicates are never negative |
| KrakenLines.SelectWindow | src/quantara/series_acquisition.py:228-291 | for every block list: the fault of the byte stream, or the concatenated source lines in the window with all counters; missing hours is the number of grid slots without a row |
| Aggregation.SumsStayExact | src/quantara/aggregation.py:66-119 | no partial sum of canonical values reaches the eighty digits of the context |
| Aggregation.ExactVolumeSum | src/quantara/aggregation.py:94-119 | the exact total exactly when it fits decimal128(38,18), otherwise an overflow of that field |
| Aggregation.ExactTradeCount | src/quantara/aggregation.py:58-69 | the exact total exactly when it fits int64 |
| Aggregation.OrderedMeansAscending | src/quantara/aggregation.py:171-179 | adjacent checks accept exactly strictly ascending input |
| Aggregation.CheckOrder | src/quantara/aggregation.py:171-179 | accepts exactly strictly ascending times, otherwise names the first row that goes back or repeats, and which of the two it does |
| Aggregation.GroupsAscending | src/quantara/aggregation.py:181-188 | groups of ascending input come in ascending bucket order |
| Aggregation.GroupMinutes | src/quantara/aggregation.py:181-184 | the dictionary holds exactly the runs of rows that share a bucket |
| Aggregation.AggregateGroup | src/quantara/aggregation.py:188-242 | succeeds exactly on the full run of the bucket's clean minutes with storable totals; the bar has the first open, last close, attained extremes, exact totals and the bucket's times; the gates fail in order |
| Aggregation.GroupAccepted | src/quantara/aggregation.py:188-216 | a group becomes a bar exactly when its members are minute 0 to the last of its bucket, all clean, with totals that fit |
| Aggregation.AggregateTimeframe | src/quantara/aggregation.py:165-243 | the bars of the groups in bucket order, or the fault of the first group that has one |
| DerivedBars.FlatGroups | src/quantara/aggregation.py:181-184 | grouping loses, repeats and reorders nothing |
| DerivedBars.SuccessMeansBlocks | src/quantara/aggregation.py:165-243 | on success bar i is the exact summary of the i-th full block of minutes, and the blocks cover the input |
| DerivedBars.AggregationConserves | src/quantara/aggregation.py:217-243 | every volume and the trade count are conserved exactly |
| DerivedBars.NestedTimeframesAgree | src/quantara/aggregation.py:165-243 | from the same minutes each coarse bar has the first open, greatest high, least low, last close and summed volumes and count of the fine bars inside it (a day from 24 hours) |
| Quality.EvaluateQuality | src/quantara/quality.py:58-193 | all fifteen findings with their counts, in order, and the state they give |
| Quality.CheckSequence | src/quantara/quality.py:121-131 | uniqueness, order, adjacency and period membership |
| Quality.CheckRows | src/quantara/quality.py:135-188 | one pass with a counter per check, then findings and warnings |
| Quality.SourcePassIsSound | src/quantara/quality.py:58-193 | PASS holds exactly for a nonempty, ordered, adjacent, in-period series of sound minutes with exact boundaries when a count is enforced |
| Quality.SourceVerdict | src/quantara/quality.py:189-192 | FAIL exactly for an unusable period, WARN_BLOCKED exactly for a usable one with rows out of order, without volume or with a nonzero source_ignore, PASS otherwise |
| Quality.StateMeans | src/quantara/quality.py:189-192 | failed exactly when some finding fails, blocked exactly when none fails and some blocks |
| Quality.OhlcCount | src/quantara/quality.py:142-149 | the reported violations are a number of rows (as for close times, taker volumes, zero volume and source_ignore) |
| DerivedQuality.EvaluateDerivedQuality | src/quantara/derive_quality.py:61-199 | all thirteen findings, with checks that could not run blocking |
| DerivedQuality.DerivedPassIsSound | src/quantara/derive_quality.py:32-199 | PASS holds exactly for a reconciled series of the expected number of adjacent sound bars from the start |
| DerivedQuality.DerivedVerdict | src/quantara/derive_quality.py:32-199 | FAIL exactly for an unusable or unreconciled series; otherwise a missing row count, an empty series or a bar without volume blocks, and nothing else |
| PassPreserved.PassedIsGrid | src/quantara/quality.py:87-131 | a passing period of n rows is exactly the minute grid from its start to its end |
| PassPreserved.GroupsOfGrid | src/quantara/aggregation.py:181-188 | an aligned grid falls into full groups |
| PassPreserved.SoundMinutesMakeSoundBar | src/quantara/aggregation.py:217-242 | a bar of sound minutes passes every bar check |
| PassPreserved.ParentPassGivesDerivedPass | src/quantara/aggregation.py:165-243 | from a parent PASS with aligned start and length, aggregation fails exactly when a total does not fit, returns exactly length/timeframe bars, and the derived gate on them is PASS |
| Folds.ComputeTestRanges | src/quantara/folds.py:69-93 | blocks tile [first, n) in order, all of the wanted size but the last, which is in [size, 2*size); none when n is too small |
| Folds.TilingIsUnique | src/quantara/folds.py:69-93 | there is only one such tiling |
| Folds.TileCount | src/quantara/folds.py:69-93 | with floor((n-first)/size) blocks |
| Folds.EveryRowTestedOnce | src/quantara/folds.py:69-93 | every row after the head lies in exactly one block |
| Folds.BuildWalkforwardFolds | src/quantara/folds.py:96-154 | refuses undersized parents; otherwise every fold trains on all rows before its embargo, and the test rows are n minus the head |
| Folds.FoldShape | src/quantara/folds.py:118-134 | training ranges are never missing and end exactly embargo rows before the test block |
| Features.ReturnColumn | src/quantara/features.py:82-90 | with exact operations (1 + cell) * close[t - lag] == close[t], null exactly in the warm-up; or a value signals |
| Features.VolatilityColumn | src/quantara/features.py:92-106 | sample deviation of the last twenty stored returns |
| Features.VolumeRatioColumn | src/quantara/features.py:108-115 | volume over the mean of the last twenty volumes |
| Features.ComputeFeatures | src/quantara/features.py:69-123 | all four columns, or a signal in one of them |
| Features.ComputeLabels | src/quantara/features.py:125-149 | forward return and exact direction, null where the horizon runs past the end |
| Features.BuildResearchRows | src/quantara/features.py:156-187 | the complete quantized table, whose every cell then means what TableMeans says, or some value of some row signals |
| Features.TableMeans | src/quantara/features.py:69-187 | for a context whose answers are exact, every cell is the one quantization of a value that satisfies its defining equation over closes and volumes, and null exactly in warm-up and trailing rows |
| Features.VolatilityMeans | src/quantara/features.py:92-106 | 19 x^2 is the sum of squared distances of the last twenty returns from their mean, x >= 0 |
| Features.VolumeRatioMeans | src/quantara/features.py:108-115 | x times the last twenty volumes together is twenty times the volume of the bar |
| Features.ForwardReturnMeans | src/quantara/features.py:125-149 | (1 + x) * close[t] == close[t + horizon], and for a positive close the direction is the sign of x |
| Leakage.RowCausal | src/quantara/features.py:69-149 | a row depends on no parent beyond its horizon |
| Leakage.LongEmbargoIsSafe | src/quantara/folds.py:118-134 | with embargo at least the horizon no change from the test start on reaches a training row |
| Leakage.ShortEmbargoLeaks | src/quantara/features.py:125-149 | with a shorter one two parents that agree before the test block give a training row different labels |
| Leakage.FoldLeaksExactlyWhen | src/quantara/folds.py:96-154 | a fold is free of look-ahead for all pairs of parents exactly when embargo >= horizon, or no label exists, or nothing is trained on |
| Leakage.TrainingTablesAgree | src/quantara/features.py:156-187 | two completed tables from parents that agree before the test start have identical training rows |
| Holm.HolmIsClosedTesting | src/quantara/estimator_c3.py:298-340 | the step-down reaches a hypothesis exactly when every intersection containing it is rejected by Bonferroni |
| Holm.TieOrderIsIrrelevant | src/quantara/estimator_c3.py:311-315 | rejections do not depend on how ties are ordered |
| Holm.RejectionsAreMonotone | src/quantara/estimator_c3.py:321-326 | smaller p-values never lose a rejection |
| Holm.RejectionsArePrefix | src/quantara/estimator_c3.py:316-335 | rejections form a prefix of the sorted steps |
| Holm.CopyPValues | src/quantara/estimator_c3.py:302-309 | copies in family order, or names a p-value outside [0,1] |
| Holm.StepDown | src/quantara/estimator_c3.py:311-335 | the loop with the active flag rejects exactly what closed testing rejects |
| Holm.HolmStepDown | src/quantara/estimator_c3.py:298-340 | for any family: wrong key sets and out-of-range p-values refused, otherwise the above |
| Backfill.Select | src/quantara/series_backfill.py:60-71 | the slice from the first occurrence of the start to that of the end; start-after-end exactly when the start's index is the larger one, each other error exactly when it applies |
| BackfillEvidence.ReadManifests | src/quantara/series_backfill.py:86-119 | files every new manifest, and refuses only when no correct attribution exists |
| BackfillEvidence.FitsExactlyWhen | src/quantara/series_backfill.py:86-116 | a manifest is evidence of an invocation exactly when schema, series, name, state, code and period agree field by field |
| BackfillAttribution.Outcomes | src/quantara/series_backfill.py:83-139 | succeeds exactly when a one-to-one attribution of manifests to invocations exists, and reports it in invocation order |
| BackfillEvidence.NamedOnce | src/quantara/series_backfill.py:111-116 | under a correct attribution no two manifests name one period |
| BackfillAttribution.OneMissing | src/quantara/series_backfill.py:119-126 | the one manifest without a period belongs to the one invocation nobody names |
| Backfill.Submit | src/quantara/series_backfill.py:189-194 | submission stops early only after a failure |
| Backfill.Collect | src/quantara/series_backfill.py:195-199 | under any completion order all submitted codes are collected, and the failure kept is the first in completion order |
| Backfill.Batch | src/quantara/series_backfill.py:179-201 | succeeds exactly when the batch's manifests can be attributed to its submitted invocations; outcomes follow the batch as a prefix, and it is stopped exactly when a submitted invocation fails |
| Backfill.RunBatches | src/quantara/series_backfill.py:203-213 | refuses exactly when some executed batch cannot be attributed; otherwise outcomes follow the slice without a gap and no batch starts after a failure |
| Backfill.FewAfterFailure | src/quantara/series_backfill.py:203-213 | at most workers-1 attempted periods follow the earliest failing one |
| Backfill.NotAttempted | src/quantara/series_backfill.py:215-219 | what is listed as not attempted is exactly the rest of the slice |
| Backfill.RunSeriesBackfill | src/quantara/series_backfill.py:142-221 | the whole run: every error exactly when it applies, the rights gate, then prefix, drain, one-to-one evidence, counts, first observed failure and worst exit code |
| KlineRecords.BoundsAligned | src/quantara/series_parsing.py:308-321 | period ends lie on the native grid inside the frozen window |
| KlineRecords.PolicyImpliesScalar | src/quantara/series_parsing.py:68-89 | the extra range and rounding checks after the numeric policy never reject; unsigned fields are nonnegative |
| KlineRecords.ValidRecordIsSound | src/quantara/series_parsing.py:411-449 | every accepted record gives a row on the grid with consistent prices, volumes and count |
| KlineRecords.RowTakesItsColumns | src/quantara/series_parsing.py:411-449 | every member of an accepted row is the value of its own column, for both record shapes |
| KlineRecords.KrakenRowReadsBack | src/quantara/series_parsing.py:355-449 | any sound row that fits the storage type, written as seconds, open, high, low, close, volume, count, parses to exactly that row |
| KlineRecords.MonthlyRowReadsBack | src/quantara/series_parsing.py:355-449 | the same for the twelve columns of a monthly archive, negative derived prices included |
| Deduplication.ParseRecords | src/quantara/series_parsing.py:224-272 | for any record grammar: accepts exactly when every record is valid alone and equal keys have identical bytes; rows strictly increasing and exactly those of the records; duplicate hashes are those of the repeated records in order; source = distinct + duplicate; order flag exact; otherwise names what is wrong with the first record that cannot follow the ones before it |
| Deduplication.OrderIsIrrelevant | src/quantara/series_parsing.py:224-272 | any reordering of the raw records is accepted or refused alike and gives the same rows |
| Deduplication.SameRowsSameSequence | src/quantara/series_parsing.py:452-458 | strictly increasing rows are determined by their set |
| KlineParsing.ParseKlineRows | src/quantara/series_parsing.py:407-458 | the same for kline archives, where every row is sound and takes its members from its own columns |
| KlineParsing.RowsAreSound | src/quantara/series_parsing.py:430-451 | every row of an accepted source lies on the grid with consistent prices, volumes and count |
| KlineGaps.BuildKlineRows | src/quantara/series_canonical.py:476-510 | succeeds exactly on consistent counts, in-period valid rows and strict order; every canonical row keeps its whole source row |
| KlineGaps.CanonicalKeepsSource | src/quantara/series_canonical.py:476-510 | the source row can be read off the canonical one; eligibility is one past the close, and derived series have no trade count |
| KlineGaps.BuildableIsSound | src/quantara/series_canonical.py:476-510 | what can be built is exactly what the record parser considers sound, but for the size of the count |
| KlineGaps.ParsedRowsBuild | src/quantara/series_canonical.py:476-510 | whatever the parser accepts can be built |
| KlineGaps.BuildGapManifest | src/quantara/series_canonical.py:592-616 | the manifest of the missing grid slots |
| KlineGaps.GapsPartitionGrid | src/quantara/series_canonical.py:592-616 | present times and gaps partition the native grid and their counts add up |
| KlineGaps.GapManifestBytes | src/quantara/series_canonical.py:619-663 | accepts exactly manifests with this archive's header, counts and ordered aligned gaps; the text ends in a line feed and reads back as the manifest with keys in order |
| KlineGaps.ManifestMembers | src/quantara/series_canonical.py:592-616 | each field is written under its own key, gaps in order, and there are no other keys |
| KlineGaps.BuiltManifestPasses | src/quantara/series_canonical.py:592-663 | the built manifest always passes that validation |
| KlineGaps.RecomputeGaps | src/quantara/series_quality.py:144-161 | the recomputation from timestamps alone |
| KlineGaps.RecomputedManifestAgrees | src/quantara/series_quality.py:144-161 | on canonical rows it equals the built manifest |
| KlineGaps.NoFailuresMeansClean | src/quantara/series_quality.py:139-141 | no sequence failure exactly for strictly increasing times on the grid |

## Left out

- SHA-256 itself: an uninterpreted function; only the bytes it is fed are modelled.
- Object and file access (HTTP, redirects, retries, Parquet, ZIP, DEFLATE, YAML, JSON reading): their results are inputs.
- `store_object` with a caller-supplied address, and the stale-staging sweep of `src/quantara/pipeline.py`: the publication invariant is about computed addresses and one live publisher per lane.
- Decimal rounding at fifty digits in the solver, ridge fit and rank division, and binary floating point in `auc`: these are modelled over exact reals, with the square root a parameter.
- Solver.Solve: does not model decimal rounding, so a pivot is zero exactly when the exact one is.
- Ridge.FitRidgeMatrix: does not model the numeric type checks on inputs.
- Ranks.Auc: does not model NaN scores, which have no order.
- BootstrapB4.Bootstrap: does not model the derivation of stream seeds from the comparison id, the type checks on its arguments, or calendar years outside the supported range.
- Features.BuildResearchRows: does not model the type checks on parent tuples; decimal operations are a parameter that may signal, and what the cells mean is stated for a context whose answers are exact, not for fifty digits.
- Exponents beyond 10^15, NaN and infinity, digit-group underscores and non-ASCII digits in decimal literals, and the wording of error messages.
- Lone surrogates: text is a sequence of Unicode scalar values.
- RowFraming.StreamDetermines: does not model non-ASCII fingerprints, which the Python form refuses and the kernel encodes; fingerprints are ASCII without a line feed.
- EvaluationLock.StaleLockStays: does not model an operator who deletes the lock file by hand.
- KrakenLines.SelectWindow: does not model the size, CRC and digest checks around the decompressed stream.
- Quality.EvaluateQuality: does not model the evidence texts of findings, nor the identity hashed from them.
- DerivedQuality.EvaluateDerivedQuality: does not model the evidence texts of findings; reconciliation is an input.
- Aggregation.ExactVolumeSum: does not model values that are not multiples of 10^-18, whose rejection cannot occur for persisted rows; member lists are shorter than 10^42.
- Backfill.RunSeriesBackfill: does not model exceptions out of the pipeline call or unreadable directories; a batch's manifests are an input.
- KlineParsing.ParseKlineRows: does not model the header line, invalid UTF-8, rights gates or the attempt file; calendar months are given by their first and last day.
- KlineGaps.BuildKlineRows: does not model the provider, instrument and provenance columns.
- The ZIP directory and ZIP64 cursor checks of the Kraken archive.
- The record grammars of the scalar series (funding and open interest); their bookkeeping is that of `Deduplication`.
- The logistic estimators, validation pipeline, descriptor and rights loaders, command line, probes and benchmarks.
