# Bio-Musical Rhythms: a Dafny model of the decision logic

Bio-Musical Rhythms relates the phrase structure of music to heart-rate rhythms, in particular
the Mayer waves: slow blood-pressure oscillations with a period of about 10 s. Most of the
repository calls into librosa, SciPy, yt-dlp and plotting libraries. This project models the
logic that sits between those calls and proves what it guarantees:

- **Phrase-period detection** (`PhraseDetector`). The lag grid is `k * 512 / sr`. The lags
  inside the search window [min_period, max_period] are kept. The detector picks the strongest
  autocorrelation peak whose prominence is at least 0.05, or else the first maximum of the
  window. Then the curve is normalised by its lag-0 value. The autocorrelation is an input; it
  can also be built from an envelope by the direct lag-product sum.
- **scipy's `find_peaks` with a prominence threshold** (`SciPySignal`): flat tops resolve to
  their middle sample, and the prominence is measured from the higher of the two bases.
- **NumPy primitives** (`NumPy`): `int()`, `argmax`, `where`, boolean and fancy indexing,
  `trapz`. `searchsorted` serves as a device for the proofs.
- **Tempo-invariance validation** (`TempoValidation`): one record per speed factor. Each record
  holds the detected period, the expected period `10 / speed` and the error, each rounded to two
  decimals when it is stored.
- **Link-list parsing, filename cleaning and the download loop** (`BatchDownloader`, with
  Python's `str`/`re` behaviour in `PyText`). YouTube URLs and `m:ss` start times are matched
  leftmost-first. Titles are sanitised into file names. Video ids are de-duplicated, first
  occurrence first. The ffmpeg arguments are chosen, and a catalogue of the successful downloads
  is built.
- **The Mayer-band score and peak frequency** (`MayerMetric`): trapezoid band power over the
  bins with `low_cut <= f <= high_cut`, divided by the total power from bin 1 on. The ratio is
  guarded against a zero total. The peak pick is the first maximum above 0.02 Hz.
- **The baroreflex heart-rate simulator** (`BiomimeticModel`): the envelope is rolled by the
  latency and the wrapped head is zeroed in place. It is then scaled and added to a baseline
  and a noise trace. This part is imperative Dafny over arrays.

Floats are modelled as mathematical reals. Where NumPy division can produce `inf` or `nan`,
a `Float` datatype makes that explicit.

The code diverges from the project's documented design in several places. The model follows
the code:

- The detector does no parabolic (sub-frame) refinement, so every period it reports is an
  exact lag-grid time.
- The detector has no epsilon guard on the lag-0 value. A silent input gives an all-NaN curve
  and no error. The period is the time of the first lag of the window when the window holds a
  lag, and 0.0 for an empty window (`PhraseDetector.SilentDetection`).
- The validator does not calibrate a base period from the recording. It assumes a fixed 10 s
  baseline.
- The validator searches the fixed window [5, 15] s instead of a window proportional to the
  expected period.

## Model

| member | source | states |
|---|---|---|
| PhraseDetector.LagTimeClosedForm | src/analysis/phrase_detector.py:31-35 | the time of lag k, counted hop by hop, is `k * 512 / sr` |
| PhraseDetector.LagTimeIncreasing | src/analysis/phrase_detector.py:31-35 | a later lag has a strictly larger time |
| PhraseDetector.FramesToTime | src/analysis/phrase_detector.py:31-35 | `times` has one entry per lag, entry k being the time of lag k |
| PhraseDetector.LagGridIncreases | src/analysis/phrase_detector.py:31-35 | the lag grid is sorted |
| PhraseDetector.SearchMask | src/analysis/phrase_detector.py:38 | the mask is true at k exactly when `min_period <= times[k] <= max_period`, both ends inclusive |
| PhraseDetector.Divide | src/analysis/phrase_detector.py:57 | NumPy division: a finite quotient for a non-zero divisor; for a zero divisor, nan, +inf or -inf by the sign of the dividend |
| PhraseDetector.Normalise | src/analysis/phrase_detector.py:57 | the curve has the length of `ac`; entry k is `ac[k] / ac[0]`, with no guard on the divisor |
| PhraseDetector.NormaliseStartsAtOne | src/analysis/phrase_detector.py:57 | when `ac[0] != 0` the normalised curve is exactly 1 at lag 0 |
| PhraseDetector.PickPeakStrongest | src/analysis/phrase_detector.py:47-53 | if some peak passes the prominence test, the chosen position is such a peak; it is strictly inside the window; it is the highest such peak, and the first one on ties |
| PhraseDetector.PickPeakFirstMaximum | src/analysis/phrase_detector.py:54-55 | if no peak passes, the chosen position is the first maximum of the window |
| PhraseDetector.ChosenPeriodInWindow | src/analysis/phrase_detector.py:37-55 | with no lag time in the window the period is 0.0; otherwise it is the time of some lag inside the window |
| PhraseDetector.DetectPeriodicity | src/analysis/phrase_detector.py:30-59 | raises exactly for an empty `ac`; otherwise `times` and the curve have `ac`'s length, `times` is the lag grid, the curve is `ac / ac[0]` and the period is chosen on that grid |
| PhraseDetector.WindowIsSlice | src/analysis/phrase_detector.py:38-44 | on a sorted grid the window is non-empty exactly when `lo < hi`; then `valid_ac` and `valid_times` are the slices `[lo..hi)` given by searchsorted |
| PhraseDetector.ChosenFromSlice | src/analysis/phrase_detector.py:43-55 | with a non-empty window, the period is chosen from the slices `ac[lo..hi]` and `times[lo..hi]` |
| PhraseDetector.PeriodIsPickedLag | src/analysis/phrase_detector.py:43-55 | with a non-empty window, the period is `times[lo + j]` for the position j picked in `ac[lo..hi]` |
| PhraseDetector.StrongestPeakChosen | src/analysis/phrase_detector.py:47-53 | if a window peak passes the prominence test on the un-normalised curve, the period is the time of the highest qualifying peak; that peak is strictly inside the window, and ties go to the first |
| PhraseDetector.FallbackToFirstMaximum | src/analysis/phrase_detector.py:54-55 | if no window peak qualifies, the period is the time of the window's first maximum |
| PhraseDetector.PeriodOnLagGrid | src/analysis/phrase_detector.py:31-55 | the period is 0.0 when no lag is in the window; otherwise it is an exact grid time `LagTime(k)` for some in-window lag `k < len(ac)`, with no interpolation |
| PhraseDetector.Autocorrelate | src/analysis/phrase_detector.py:28 | the autocorrelation has `min(max_lag, len(x))` lags; lag k is the lag-k product sum |
| PhraseDetector.ZeroLagIsEnergy | src/analysis/phrase_detector.py:28 | the lag-0 autocorrelation is never negative |
| PhraseDetector.SilentLagSum | src/analysis/phrase_detector.py:28 | a silent signal has an all-zero autocorrelation |
| PhraseDetector.MaxLag | src/analysis/phrase_detector.py:27 | `max_lag` is the floor of `max_period * sr / 512` |
| PhraseDetector.LagBelowMaxLag | src/analysis/phrase_detector.py:27-35 | every lag below `max_lag` has a time strictly below `max_period` |
| PhraseDetector.DetectFromEnvelope | src/analysis/phrase_detector.py:27-59 | an empty envelope makes the autocorrelation raise; otherwise detection runs on the autocorrelation truncated to `max_lag` lags |
| PhraseDetector.EnvelopePeriodInWindow | src/analysis/phrase_detector.py:27-55 | a successful detection reports 0.0 or a period in `[min_period, max_period)`, so `max_period` itself is never reported |
| PhraseDetector.FlatWindowPicksFirst | src/analysis/phrase_detector.py:47-55 | a window of equal values has no qualifying peak, and the pick is its first position |
| PhraseDetector.SilentDetection | src/analysis/phrase_detector.py:37-59 | for an all-zero `ac` the curve is NaN everywhere; the period is the first window lag's time, or 0.0 for an empty window |
| PhraseDetector.SilentEnvelope | src/analysis/phrase_detector.py:27-59 | a silent envelope is detected successfully, with the outcome SilentDetection describes |
| SciPySignal.RunIsMaximal | src/analysis/phrase_detector.py:48 | the run of equal samples around a position is maximal: on each side there is a different sample or an end |
| SciPySignal.PeakIsInteriorMaximum | src/analysis/phrase_detector.py:48 | a peak is never the first or last sample, and is at least as high as both neighbours |
| SciPySignal.LeftBaseBelowWalk | src/analysis/phrase_detector.py:48 | the left base is no higher than any sample on the walk left from the peak, up to the nearest higher sample |
| SciPySignal.RightBaseBelowWalk | src/analysis/phrase_detector.py:48 | the right base is no higher than any sample on the walk right from the peak, up to the nearest higher sample |
| SciPySignal.Prominence | src/analysis/phrase_detector.py:48 | the prominence (height above the higher base) is never negative |
| SciPySignal.FindPeaks | src/analysis/phrase_detector.py:48 | find_peaks reports only in-range peaks whose prominence reaches the threshold, in strictly increasing order |
| SciPySignal.FindPeaksComplete | src/analysis/phrase_detector.py:48 | find_peaks misses no qualifying peak |
| NumPy.Trunc | src/analysis/phrase_detector.py:27 | `int(x)` truncates toward zero: the result is within 1 of x, on the side of zero |
| NumPy.ArgMax | src/analysis/mayer_metric.py:23 | argmax is a position holding the maximum, and every earlier position holds strictly less |
| NumPy.Where | src/analysis/mayer_metric.py:10 | `np.where` reports only true positions, in strictly increasing order |
| NumPy.WhereComplete | src/analysis/mayer_metric.py:10 | `np.where` reports every true position |
| NumPy.Gather | src/analysis/mayer_metric.py:12 | fancy indexing `xs[ix]` has one entry per index, entry j being `xs[ix[j]]` |
| NumPy.GatherArgMax | src/analysis/phrase_detector.py:52 | `ix[argmax(xs[ix])]` is the first position of ix that holds the largest value over ix |
| NumPy.WhereInterval | src/analysis/phrase_detector.py:43-44 | a mask that is true exactly on `lo..hi-1` selects the positions `lo..hi-1` |
| NumPy.SelectInterval | src/analysis/phrase_detector.py:43-44 | such a mask applied to data gives the slice `xs[lo..hi]` |
| NumPy.ClosedRangeMask | src/analysis/mayer_metric.py:10 | on sorted data the mask `(xs >= lo) & (xs <= hi)` is true on exactly one contiguous run, from searchsorted-left of lo to searchsorted-right of hi |
| NumPy.TrapzSlice | src/analysis/mayer_metric.py:12 | the trapezoid rule over a slice sums exactly the panels inside the slice |
| PyText.Strip | src/data_acquisition/batch_downloader.py:20 | `strip()` never lengthens a string, and leaves no whitespace at either end |
| PyText.StripRemovesOnlySpace | src/data_acquisition/batch_downloader.py:20 | `strip()` removes only leading and trailing whitespace: the input is whitespace, then the result, then whitespace |
| PyText.StripKeepsTrimmed | src/data_acquisition/batch_downloader.py:48 | text with no whitespace at either end is unchanged by `strip()` |
| PyText.Filter | src/data_acquisition/batch_downloader.py:48 | deleting a class of characters leaves only kept characters |
| PyText.FilterCounts | src/data_acquisition/batch_downloader.py:48 | every kept character keeps its count and every deleted character disappears |
| PyText.FilterKeepsClean | src/data_acquisition/batch_downloader.py:48 | text with nothing to delete is unchanged |
| PyText.ReplaceRuns | src/data_acquisition/batch_downloader.py:49 | `re.sub('X+', '_', s)` is empty exactly when s is; no character of X survives except as the replacement |
| PyText.ReplaceRunsClears | src/data_acquisition/batch_downloader.py:49 | with a replacement outside X, no character of X remains |
| PyText.ReplaceRunsKeepsClean | src/data_acquisition/batch_downloader.py:49 | text with no character of X is unchanged |
| PyText.ReplaceRunsEnds | src/data_acquisition/batch_downloader.py:49 | a first or last character outside X stays first or last |
| PyText.ReplaceRunsPreserves | src/data_acquisition/batch_downloader.py:49 | a property of every input character and of the replacement holds of every output character |
| PyText.NatToString | src/data_acquisition/batch_downloader.py:99 | `str(n)` is a non-empty digit string with no leading zero |
| PyText.NatToStringRoundTrip | src/data_acquisition/batch_downloader.py:99 | reading back `str(n)` gives n |
| BatchDownloader.LeftmostSpec | src/data_acquisition/batch_downloader.py:22 | the search returns the leftmost matching start, and nothing only when no start matches |
| BatchDownloader.SchemeLengthSpec | src/data_acquisition/batch_downloader.py:16 | the measured scheme is `http://` or `https://` |
| BatchDownloader.HostLengthSpec | src/data_acquisition/batch_downloader.py:16 | the measured host prefix is `www.` or nothing |
| BatchDownloader.PathLengthSpec | src/data_acquisition/batch_downloader.py:16 | the measured path prefix is one of `youtube.com/watch?v=`, `youtube.com/shorts/`, `youtu.be/` |
| BatchDownloader.MatchUrl | src/data_acquisition/batch_downloader.py:16 | a match at the start of a text has a non-empty id ending the match |
| BatchDownloader.MatchUrlAt | src/data_acquisition/batch_downloader.py:16 | a match at position i starts at i and has a non-empty id that ends the match |
| BatchDownloader.MatchUrlIsVideoUrl | src/data_acquisition/batch_downloader.py:16 | soundness: a match at the start of a text is scheme, optional `www.`, path prefix and id; the id is a maximal run of `[\w-]` (MatchUrlFinds is the converse) |
| BatchDownloader.MatchUrlFinds | src/data_acquisition/batch_downloader.py:16 | completeness: a text that starts with scheme, optional `www.`, path prefix and a non-empty run of `[\w-]` is matched there; the id starts after the path prefix and runs at least over that run; for a maximal run the match is exactly that URL |
| BatchDownloader.MatchUrlComplete | src/data_acquisition/batch_downloader.py:16 | the same at any position i of a line: such a URL at i is matched at i, exactly when its id run is maximal |
| BatchDownloader.MatchIsVideoUrl | src/data_acquisition/batch_downloader.py:16 | every match, wherever in the line, is such a URL; group 2 is a maximal `[\w-]` run ending group 1 |
| BatchDownloader.IdRun | src/data_acquisition/batch_downloader.py:16 | the greedy `[\w-]+` run consists of id characters and is followed by none |
| BatchDownloader.SearchUrl | src/data_acquisition/batch_downloader.py:22 | a search result is the match at its own start position |
| BatchDownloader.SearchUrlLeftmost | src/data_acquisition/batch_downloader.py:22-25 | the URL search finds the leftmost match, and none only when no position matches |
| BatchDownloader.MatchTimeAt | src/data_acquisition/batch_downloader.py:17 | the time pattern matches at i exactly when `d:dd` or `dd:dd` (IsTimeAt for 1 or 2 minute digits) stands there; a match has exactly the digits and colon of IsTimeAt for its minute count, and takes two minute digits exactly when `dd:dd` stands there, as `\d{1,2}` is greedy |
| BatchDownloader.SearchTime | src/data_acquisition/batch_downloader.py:29 | a search result is the time match at its own start position |
| BatchDownloader.SearchTimeLeftmost | src/data_acquisition/batch_downloader.py:29 | the time search finds the leftmost `d:dd` or `dd:dd`, and none only when no position matches |
| BatchDownloader.StartTimeLeftmost | src/data_acquisition/batch_downloader.py:28-33 | the start time is None exactly when no position holds `d:dd` or `dd:dd` (no IsTimeAt anywhere); otherwise it is `60*m + s` of the leftmost match, which is such a time, with no such time further left |
| BatchDownloader.SecondsNotRangeChecked | src/data_acquisition/batch_downloader.py:33 | seconds are not range-checked: `1:75` gives 135 |
| BatchDownloader.ParseLineSpec | src/data_acquisition/batch_downloader.py:20-34 | a blank line gives no entry; another line gives one exactly when the URL pattern matches; the entry's url and id are the text of the leftmost match (group 1) and of its id (group 2), a well-formed video URL ending in that id, with the line's start time and the source "Mentor List" |
| BatchDownloader.ParseLineFindsUrl | src/data_acquisition/batch_downloader.py:20-25 | a stripped line containing a URL of the pattern at position i yields an entry, and the URL search finds a match starting at i or further left |
| BatchDownloader.ParsedLinesAppend | src/data_acquisition/batch_downloader.py:19-35 | lines are parsed independently and in order |
| BatchDownloader.ParsedLinesEntries | src/data_acquisition/batch_downloader.py:19-35 | at most one entry per line; every entry is a well-formed video URL from the mentor list |
| BatchDownloader.ParseOne | src/data_acquisition/batch_downloader.py:20-34 | the loop body yields the line's entry, or skips the line |
| BatchDownloader.ParseRawList | src/data_acquisition/batch_downloader.py:19-35 | the loop returns the entries of the lines, in line order |
| BatchDownloader.SanitizedTitle | src/data_acquisition/batch_downloader.py:48-49 | a usable title gives a name of word characters and `-` only; it starts and ends with the title's own first and last kept characters, never an `_` made from whitespace |
| BatchDownloader.SanitizedFallback | src/data_acquisition/batch_downloader.py:51-52 | a title with nothing usable falls back to the id, with each run of non-word characters turned into one `_` |
| BatchDownloader.SanitizedHasNoSpace | src/data_acquisition/batch_downloader.py:46-53 | a sanitised name never holds whitespace |
| BatchDownloader.SanitizeIdempotent | src/data_acquisition/batch_downloader.py:46-53 | sanitising a non-empty sanitised name again changes nothing |
| BatchDownloader.PostprocessorArgsSpec | src/data_acquisition/batch_downloader.py:97-102 | `-ss <start> -t 180` exactly for a positive start time, whose digits read back as the time; `-t 300` otherwise, including a start time of 0 |
| BatchDownloader.ProcessSpec | src/data_acquisition/batch_downloader.py:71-113 | the entry has a record exactly when the metadata fetch succeeds and the download of the entry's URL, with the template `output_dir/<sanitised title>.%(ext)s` and the ffmpeg arguments of its start time, succeeds; a failed fetch gives no record; a record carries the entry's id and source and the fetched title or "Unknown"; its file is `output_dir/<sanitised title>.wav` |
| BatchDownloader.DedupPrefix | src/data_acquisition/batch_downloader.py:65-68 | each entry marks its id seen, and is kept exactly when the id was not seen before |
| BatchDownloader.DedupCovers | src/data_acquisition/batch_downloader.py:65-68 | the de-duplicated entries come from the input and cover every id |
| BatchDownloader.DedupDistinct | src/data_acquisition/batch_downloader.py:66-68 | no id is processed twice |
| BatchDownloader.DedupKeepsFirst | src/data_acquisition/batch_downloader.py:66-68 | the first occurrence of each id is the one processed |
| BatchDownloader.CatalogueSnoc | src/data_acquisition/batch_downloader.py:104-113 | the catalogue grows by at most the record of the last entry processed |
| BatchDownloader.CatalogueRecords | src/data_acquisition/batch_downloader.py:81-110 | at most one record per entry; each record carries an input id; its file path is the output directory joined with the sanitised title and `.wav` |
| BatchDownloader.CatalogueOmits | src/data_acquisition/batch_downloader.py:104-113 | an id none of whose processed entries is downloaded has no record |
| BatchDownloader.CatalogueOnlyDownloaded | src/data_acquisition/batch_downloader.py:97-110 | every catalogue record is the record of one of the processed entries whose fetch and download both succeeded |
| BatchDownloader.DedupCatalogueOnlyDownloaded | src/data_acquisition/batch_downloader.py:65-110 | every record of the catalogue built from the de-duplicated entries is the record of an input entry whose fetch and download both succeeded |
| BatchDownloader.DownloadOne | src/data_acquisition/batch_downloader.py:70-113 | one loop iteration returns a record exactly when the fetch succeeds and the download of the entry's URL with the title-derived template and the start-time arguments succeeds; the record holds the id, the title or "Unknown", the source and `output_dir/<sanitised title>.wav` |
| BatchDownloader.DownloadBatch | src/data_acquisition/batch_downloader.py:55-115 | the catalogue holds, in input order, the records of the first occurrence of each id; every record belongs to an input entry whose fetch and download both succeeded |
| BatchDownloader.FailedFirstSuppressesRepeats | src/data_acquisition/batch_downloader.py:66-78 | when an id's first occurrence fails, no later repeat of that id reaches the catalogue |
| TempoValidation.Abs | src/analysis/tempo_validation.py:24 | `abs` is non-negative and equals x or -x |
| TempoValidation.FiguresSpec | src/analysis/tempo_validation.py:23-24 | the expected period times the speed is 10; the error is the non-negative distance between detected and expected |
| TempoValidation.MeasureOutcome | src/analysis/tempo_validation.py:17-24 | the stretch rejects exactly a non-positive factor; otherwise the detector's failure or result is passed on |
| TempoValidation.FailureSticks | src/analysis/tempo_validation.py:15-31 | once a factor raises, the whole run raises that exception |
| TempoValidation.RowsPerSpeed | src/analysis/tempo_validation.py:15-31 | if no factor raises, there is exactly one record per factor, in input order; each record stores its factor's rounded figures |
| TempoValidation.FirstFailureWins | src/analysis/tempo_validation.py:15-31 | the run raises the error of the first factor that raises |
| TempoValidation.ValidateTempoInvariance | src/analysis/tempo_validation.py:11-34 | the loop returns the records of all factors, or the first exception |
| TempoValidation.DetectedInWindow | src/analysis/tempo_validation.py:21 | every detected period is 0.0 or lies in `[5, 15)` |
| TempoValidation.DefaultExpectedInWindow | src/analysis/tempo_validation.py:7-23 | for the default factors 0.8, 1.0, 1.2 and 1.4, every expected period lies in `[5, 15]` |
| MayerMetric.BandMask | src/analysis/mayer_metric.py:10 | a bin is in the band exactly when `low_cut <= f <= high_cut`, both ends inclusive |
| MayerMetric.Tail | src/analysis/mayer_metric.py:14 | `xs[1:]` is the array shifted by one bin: entry k is bin k + 1, and it is empty for an empty input |
| MayerMetric.MayerScoreSpec | src/analysis/mayer_metric.py:14-19 | the score is zero exactly when the total power or the band power is zero; it is positive exactly when band and total have the same strict sign |
| MayerMetric.TotalExcludesDC | src/analysis/mayer_metric.py:14 | the total power is the whole-spectrum integral minus the panel that starts at the DC bin; it is zero with fewer than three bins |
| MayerMetric.NarrowBandScoresZero | src/analysis/mayer_metric.py:10-19 | a band holding fewer than two bins has zero band power and zero score |
| MayerMetric.BandIsRun | src/analysis/mayer_metric.py:10-12 | on a sorted axis the band is one run of bins `lo..hi-1`; the band power is the sum of the panels inside it, or zero for an empty run |
| MayerMetric.BandAsPanels | src/analysis/mayer_metric.py:10-12 | the band power is the panel sum over the run of band bins, or zero for an empty run |
| MayerMetric.BandWithinTotal | src/analysis/mayer_metric.py:10-14 | on a sorted axis with non-negative powers, and a band above the DC bin, `0 <= band power <= total power` |
| MayerMetric.TotalIsPanels | src/analysis/mayer_metric.py:14 | with two or more bins, the total power is the sum of the panels from bin 1 on |
| MayerMetric.ScoreIsFraction | src/analysis/mayer_metric.py:10-19 | under the same conditions the score lies in `[0, 1]` |
| MayerMetric.AboveFloor | src/analysis/mayer_metric.py:22 | a bin is valid exactly when its frequency exceeds 0.02 |
| MayerMetric.PeakFrequencySpec | src/analysis/mayer_metric.py:21-24 | the pick raises exactly when no frequency exceeds 0.02; otherwise it returns the frequency of a bin above 0.02 whose power is maximal over such bins, the first one on ties |
| BiomimeticModel.DefaultLag | src/analysis/biomimetic_model.py:9-13 | the default latency of 5 s at 10 samples per second is 50 samples |
| BiomimeticModel.LagAtLeastOneSample | src/analysis/biomimetic_model.py:13 | the delay is at least one sample exactly when the latency is at least 0.1 s |
| BiomimeticModel.DefaultResponse | src/analysis/biomimetic_model.py:11-30 | with the keyword defaults (baseline 75, gain 15, latency 5 s) the first 50 samples are 75 plus noise and each later sample is 75 plus 15 times the envelope 50 samples earlier, plus noise |
| BiomimeticModel.Rolled | src/analysis/biomimetic_model.py:20 | `np.roll` keeps the length |
| BiomimeticModel.SliceStop | src/analysis/biomimetic_model.py:22 | `[:lag]` covers `min(lag, n)` entries for a non-negative lag, and `max(n + lag, 0)` for a negative one |
| BiomimeticModel.ZeroedPrefix | src/analysis/biomimetic_model.py:22 | zeroing a prefix keeps the length |
| BiomimeticModel.Delayed | src/analysis/biomimetic_model.py:20-22 | the delayed envelope has the envelope's length |
| BiomimeticModel.Response | src/analysis/biomimetic_model.py:17-30 | the predicted heart rate has the envelope's length |
| BiomimeticModel.RolledIsRotation | src/analysis/biomimetic_model.py:20 | rolling by `0 <= k <= n` moves the last k samples to the front, keeping the order of both parts |
| BiomimeticModel.ResponseShape | src/analysis/biomimetic_model.py:20-30 | for a non-negative lag, sample i is `baseline + noise[i]` before the lag, and `baseline + gain * envelope[i - lag] + noise[i]` from the lag on |
| BiomimeticModel.LongLagIgnoresEnvelope | src/analysis/biomimetic_model.py:20-30 | a lag of at least the signal length leaves baseline plus noise at every sample |
| BiomimeticModel.LongLagSameOutput | src/analysis/biomimetic_model.py:20-30 | with such a lag, any two envelopes of the same length give the same output |
| BiomimeticModel.NegativeLagWraps | src/analysis/biomimetic_model.py:13-30 | a negative lag zeroes all but the last `-lag` samples, and those carry the start of the envelope |
| BiomimeticModel.Full | src/analysis/biomimetic_model.py:18 | `np.full` gives a fresh array of the given length holding the value everywhere |
| BiomimeticModel.Roll | src/analysis/biomimetic_model.py:20 | the rolled copy is a fresh array equal to `Rolled` of the input |
| BiomimeticModel.ZeroPrefix | src/analysis/biomimetic_model.py:22 | the slice assignment zeroes exactly the entries `[:lag]` covers and leaves the rest |
| BiomimeticModel.Scale | src/analysis/biomimetic_model.py:25 | element-wise scaling into a fresh array |
| BiomimeticModel.Add | src/analysis/biomimetic_model.py:30 | element-wise sum into a fresh array |
| BiomimeticModel.BaroreflexSimulator.constructor | src/analysis/biomimetic_model.py:7-9 | the envelope sampling rate is 10 per second |
| BiomimeticModel.BaroreflexSimulator.SimulateHrResponse | src/analysis/biomimetic_model.py:11-32 | the result is a fresh array equal to Response for the truncated lag `int(lag_sec * sr)`; the envelope and noise arrays are not modified |

## Left out

- Audio loading, RMS framing, `uniform_filter1d` smoothing and time-stretching are inputs. The
  detector takes the autocorrelation (or the smoothed envelope); the validator takes
  `envelopeOf(speed)`.
- `librosa.autocorrelate` is modelled by its defining lag-product sum, not by its FFT. Floating
  point rounding in the FFT is not modelled.
- IEEE floating point is modelled by reals, apart from division by zero in the normalisation.
  Round-off, overflow and NaN propagation through sums are not modelled.
- `round(x, 2)` is an uninterpreted parameter `round2` of the validator.
- Printing, `pd.DataFrame` construction, CSV output and the `__main__` blocks are I/O.
- Reading the link list from a file is I/O: the model starts from its lines.
- `os.makedirs` is I/O. yt-dlp's metadata fetch and download are network oracles:
  `fetch(url)` reports a raised error or the info's title, and `download(request)` reports
  success.
- A metadata record whose `title` is present but `None` makes `sanitize_filename` raise outside
  the try-block. The model treats a missing title as "Unknown" and does not model a `None` one.
- `get_extra_songs` is a constant list of five entries. It holds no logic, so it is not
  modelled.
- The regex classes `\w`, `\s` and `\d` are restricted to ASCII. Python applies them to all of
  Unicode.
- The Mayer cut-offs come from a configuration file. Here they are parameters
  (`lowCut`, `highCut`).
- The simulator's configuration load in its constructor is unused, so it is left out.
- The random noise of `np.random.normal(0, 0.5, n)` is the input `noise`.
- The simulator's plotting function is left out, as are all other plotting and dashboard code.
- Arrays of unequal length are excluded by preconditions: `|freqs| == |powers|`, and noise as
  long as the envelope. NumPy would raise or broadcast there.
- BiomimeticModel.Rolled: states only the length. Its contents are stated by
  RolledIsRotation and ResponseShape.
- BiomimeticModel.Delayed: states only the length. Its contents are stated by ResponseShape,
  LongLagIgnoresEnvelope and NegativeLagWraps.
- BiomimeticModel.Response: states only the length. Its contents are stated by the same three
  lemmas.
- BiomimeticModel.ZeroedPrefix: states only the length. The zeroing is stated by the
  ZeroPrefix method and the Response lemmas.
- PhraseDetector.MaxLag: requires a non-negative `max_period`. The window is a positive
  duration throughout the program.
- MayerMetric.BandWithinTotal: proved only for a sorted frequency axis with non-negative powers
  and a band above the DC bin, which is what a power spectrum provides. For arbitrary arrays the
  ratio is not bounded.
