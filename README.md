# Peak tracker of `SignalAnalyzer`, modelled and verified in Dafny

This project models the peak-tracking state machine at the centre of
`SignalAnalyzer` in `signal_analyzer.py`. The analyser cuts an audio buffer
into half-overlapping blocks. For every block it:

- takes the set of detected peak frequencies;
- predicts each live track's frequency from its history;
- pairs tracks with peaks greedily by distance, within a tolerance of three
  FFT bins;
- charges a miss to every unmatched track;
- opens a track with a fresh id for each leftover peak, while there is room;
- drops tracks whose misses reached the timeout;
- reports the correlation value of every track that qualifies.

The per-block values are then rolled up into one summary per file.

The model is mixed, like the source:

- `SignalAnalyzer` is a class.
  - Its fields are the dictionary of live tracks (`map<nat, Track>`) and the
    id counter.
  - Its methods update those fields with loops, as `_process_block`,
    `_handle_timeouts` and `process_file` do.
  - Every method is proved against value-level functions:
    - `RefreshAll` for prediction;
    - `Matched` and `Missed` for association;
    - `SpawnAll` and the relation `Spawned` for track creation;
    - `TimedOut` for timeouts;
    - `RhoValues` for the block values;
    - `BlockStarts`, `BlockMeans` and `Summary` for the file loop.
  - One `_process_block` is the relation `BlockStep` between the store before
    and the store after the block, with the block's values.
    - Its witnesses are the greedy matches, the store after association, the
      store after creation, and the track order of the values.
    - `BlockAt` applies it to the block of the buffer at a given start.
  - The file loop is proved to run that relation block by block (`Chain`):
    - the k-th block starts at the k-th element of `BlockStarts`;
    - it takes the store from `states[k]` to `states[k + 1]`;
    - it yields the k-th list of values.
    - The chain starts from the reset store and ends at the analyser's final
      store.
    - The summary is computed from those per-block values.
- The matching is built the way the source builds it:
  - a candidate list;
  - `associations.sort()`, as an insertion sort;
  - the greedy walk.
  - The greedy walk is proved equal to an order-independent greedy matching,
    `IsGreedyMatching`. That matching is one-to-one and unique.
- `_get_track_velocity` is a pure function.

Modules, in dependency order:

| module | file | contents |
|---|---|---|
| `Options` | options.dfy | `Option` |
| `Choice` | choice.dfy | choosing from a set (the order of a Python set or dict); least element |
| `Params` | params.dfy | configuration, defaults, HOP, dt, TOL_HZ, history capacity |
| `History` | history.dfy | `deque(maxlen=…)` append and its reference characterisation |
| `Tracks` | tracks.dfy | the track record, velocity gate, prediction, match, miss, creation, timeout |
| `Matching` | matching.dfy | candidates, ordering, sort, greedy walk and its meaning |
| `Scoring` | scoring.dfy | ρ eligibility, block values, block means, summary, segmentation range |
| `Store` | store.dfy | the track store as a value: well-formedness, association and creation relations |
| `Spawning` | spawning.dfy | proofs about track creation on values |
| `Analyzer` | analyzer.dfy | the `SignalAnalyzer` class: block step, timeouts, file loop |

Three numerical computations are not modelled. Each becomes a
function-typed parameter that the model never looks inside:

- `Detect` is the spectral peak detector.
- `Fit` is `np.polyfit`; `None` stands for `LinAlgError`.
- `Corr` is the Pearson correlation; `None` stands for a degenerate window.

Frequencies and samples are `real`.

Where the code differs from the prose description of the system, the model
follows the code:

- **Silent block.** It returns before any bookkeeping, so timeouts do not run
  (signal_analyzer.py:54-56).
- **Block without peaks.** It only runs `_handle_timeouts`: no prediction, no
  `seen` reset and no misses (signal_analyzer.py:68-71). Those timeouts remove
  nothing, because between blocks every live track is below the limit (the
  lemma `SettledTimeoutIsIdentity`).
- **Tie-break.** Candidates are sorted lexicographically by
  (distance, track id, peak), not by construction order
  (signal_analyzer.py:90).
- **Capacity check.** `MAX_TRACKS` is checked before this block's timeouts
  free any room (signal_analyzer.py:110, 120).
- **Block range.** `range(0, len - BLOCK, HOP)` excludes a block that ends
  exactly at the end of the buffer (signal_analyzer.py:166).
- **Id counter.** It is not reset between files; only the tracks are
  (signal_analyzer.py:162).
- **New tracks come from a Python set.** The order in which unmatched peaks
  receive ids is therefore left open: `SpawnTracks` returns the order it used
  as a ghost value. What is proved holds for every order.
- **Track order of the ρ loop.** The loop iterates the dictionary in insertion
  order. That is ascending id order, because ids are issued by an increasing
  counter, so `CollectRho` visits the ids in increasing order.

## Model

| member | source | states |
|---|---|---|
| Params.Hop | signal_analyzer.py:16 | HOP = BLOCK // 2 is at least 1 and is half the block, rounded down |
| Params.Dt | signal_analyzer.py:73 | the prediction time step HOP / FS is positive |
| Params.Tol | signal_analyzer.py:24 | TOL_HZ is positive and TOL_HZ · BLOCK = 3 · FS, i.e. three bin widths |
| Params.DefaultsOk | signal_analyzer.py:14-24 | the default options are admissible; HOP 2048, history capacity 50, TOL_HZ 35.15625 Hz |
| History.Append | signal_analyzer.py:97 | appending to a deque of capacity `cap` keeps it within `cap`, grows it by one until full, and makes `x` the newest entry |
| History.FillKeepsNewest | signal_analyzer.py:115 | after any sequence of appends the deque holds exactly the last min(n, cap) values appended, oldest first |
| History.AppendIsShift | signal_analyzer.py:97 | one append to a full deque drops exactly the oldest entry and appends `x` |
| History.AppendToNewest | signal_analyzer.py:97 | appending to the newest `cap` values of a list gives the newest `cap` values of the extended list |
| Tracks.Velocity | signal_analyzer.py:40-49 | velocity is 0 with fewer than 5 history samples or when the fit fails, otherwise the fitted slope of the last five |
| Tracks.VelocityUsesLastFive | signal_analyzer.py:43 | two histories that agree on their last five samples give the same velocity |
| Tracks.Matched | signal_analyzer.py:96-99 | a matched track sits on its peak, is seen, has no misses and the peak appended to its history (properties in `LifecycleKeepsTrackOk`) |
| Tracks.Missed | signal_analyzer.py:106 | an unmatched track's miss count rises by one (properties in `LifecycleKeepsTrackOk`) |
| Tracks.NewTrack | signal_analyzer.py:113-117 | a new track sits on and predicts its peak, is seen, has no misses, and its history is the peak alone (properties in `LifecycleKeepsTrackOk`) |
| Tracks.Refresh | signal_analyzer.py:75-78 | a refreshed track predicts f0 + velocity · dt, is not seen, and keeps f0, history and misses |
| Tracks.RefreshAll | signal_analyzer.py:75-78 | every live track is refreshed and no id is added or removed |
| Tracks.RefreshKeepsTrackOk | signal_analyzer.py:75-78 | prediction keeps a track well formed |
| Tracks.LifecycleKeepsTrackOk | signal_analyzer.py:95-117 | a match, a miss and creation keep a track well formed (bounded history whose newest entry is f0); a matched track sits on its peak, is seen and has no misses; a new track's history is the peak alone, or empty when the capacity is 0 |
| Tracks.TimedOut | signal_analyzer.py:142-150 | exactly the tracks whose miss count reached the timeout are gone, and every other track is unchanged |
| Tracks.SettledTimeoutIsIdentity | signal_analyzer.py:68-71 | between blocks, timeout handling removes nothing |
| Matching.Less | signal_analyzer.py:90 | tuple order on (distance, track id, peak) (properties in `LessIsStrictTotalOrder`) |
| Matching.LessIsStrictTotalOrder | signal_analyzer.py:90 | the lexicographic tuple order is irreflexive, asymmetric, transitive and total on distinct candidates |
| Matching.Candidates | signal_analyzer.py:85-89 | a candidate is a (distance, track, peak) triple of a live track and a detected peak at distance strictly below the tolerance |
| Matching.CandidatesOf | signal_analyzer.py:86-89 | the inner loop emits exactly one triple for each peak within the tolerance of the track's prediction |
| Matching.BuildCandidates | signal_analyzer.py:85-89 | the nested loops emit every candidate exactly once, and nothing else |
| Matching.Insert | signal_analyzer.py:90 | insertion into a sorted list gives a sorted list with one more copy of the element |
| Matching.InsertDistinct | signal_analyzer.py:90 | inserting a new element keeps the list free of repeats |
| Matching.SortCandidates | signal_analyzer.py:90 | the sorted list is ordered, a permutation of the input, and free of repeats when the input is |
| Matching.SortedUnique | signal_analyzer.py:90 | two ordered permutations of the same candidates are equal, so the sort's result does not depend on construction order |
| Matching.Greedy | signal_analyzer.py:92-101 | the loop commits exactly the walk's matches; the matched ids and the remaining peaks are those the matches leave |
| Matching.Walk | signal_analyzer.py:92-101 | the greedy walk over a candidate list (properties in `WalkFromInput`, `WalkOneToOne`, `WalkBound`, `WalkIsGreedy`) |
| Matching.WalkFromInput | signal_analyzer.py:92-101 | only candidates of the list are committed |
| Matching.WalkOneToOne | signal_analyzer.py:92-101 | no two commits share a track or a peak; every commit was on an unclaimed track and a free peak |
| Matching.WalkBound | signal_analyzer.py:92-101 | the number of commits is at most the number of free peaks and at most the number of unclaimed tracks |
| Matching.WalkIsGreedy | signal_analyzer.py:92-101 | over sorted distinct candidates, the walk's commits are the greedy matching: a candidate is taken exactly when its peak is free and no smaller taken candidate shares its track or peak |
| Matching.GreedyMatchingIsWalk | signal_analyzer.py:90-101 | any greedy matching of the candidates is the walk's, so the matching is determined by the candidates alone |
| Matching.GreedyMatchingOneToOne | signal_analyzer.py:92-101 | in a greedy matching two matches that share a track or a peak are the same match |
| Matching.MatchBlock | signal_analyzer.py:81-101 | the association pass yields the greedy matching over the candidates, one to one, of candidates only, at most min(#peaks, #tracks) matches, with the matched ids and leftover peaks |
| Scoring.Window | signal_analyzer.py:130 | `hist[-W:]` is the last W entries, or the whole history when W is 0 |
| Scoring.Qualifies | signal_analyzer.py:125-128 | a track contributes only when seen this block with at least W history samples (properties in `RhoValuesExact`) |
| Scoring.RhoOf | signal_analyzer.py:125-137 | a qualifying track contributes its window correlation when defined, any other track nothing (properties in `RhoValuesExact`) |
| Scoring.RhoValues | signal_analyzer.py:122-137 | a block yields at most one value per track |
| Scoring.RhoValuesExact | signal_analyzer.py:124-137 | every value comes from a seen track with at least W samples, whose window correlation is defined, and every such track contributes its value |
| Scoring.RhoValuesSnoc | signal_analyzer.py:124-137 | visiting one more track appends that track's value, if any |
| Scoring.RhoValuesWithin | signal_analyzer.py:136-137 | with a correlation bounded by 1 in absolute value, every block value lies in [-1, 1] |
| Scoring.RhoValuesNoneQualify | signal_analyzer.py:125-128 | a block where no track is seen with a full window yields no value |
| Scoring.SumWithin | signal_analyzer.py:170 | a sum of values in [lo, hi] lies between n · lo and n · hi |
| Scoring.MeanWithin | signal_analyzer.py:170 | the mean of values in [lo, hi] lies in [lo, hi] |
| Scoring.BlockMeans | signal_analyzer.py:169-170 | there is at most one aggregate per block |
| Scoring.BlockMeansSnoc | signal_analyzer.py:169-170 | one more block appends its mean if it produced values, and nothing otherwise |
| Scoring.BlockMeansWithin | signal_analyzer.py:169-170 | block aggregates of values in [-1, 1] lie in [-1, 1] |
| Scoring.BlockMeansEmpty | signal_analyzer.py:169-174 | no aggregate exists exactly when no block produced a value |
| Scoring.AbsAll | signal_analyzer.py:177 | `np.abs` keeps the length and takes each absolute value |
| Scoring.Summary | signal_analyzer.py:174-177 | 0.0 without aggregates, otherwise the mean of their absolute values (properties in `SummaryRange`) |
| Scoring.SummaryRange | signal_analyzer.py:173-177 | the summary lies in [0, 1] for correlations in [-1, 1], and is 0.0 when no block produced a value |
| Scoring.RangeAdvance | signal_analyzer.py:166 | taking the first start off a range leaves the rest of the range |
| Scoring.RangeShape | signal_analyzer.py:166 | `range(start, stop, step)` is start, start + step, …, all below stop, empty exactly when stop <= start, and stops at the last value below stop |
| Scoring.BlockStarts | signal_analyzer.py:166 | `range(0, len - BLOCK, HOP)` (properties in `BlockStartsShape`) |
| Scoring.StartsAdvance | signal_analyzer.py:166 | after one more start the remaining starts are the range from the next start |
| Scoring.BlockStartsShape | signal_analyzer.py:166 | block starts are 0, HOP, 2·HOP, …; each block ends strictly before the end of the buffer, and there are none exactly when the buffer is not longer than a block |
| Store.SpawnStep | signal_analyzer.py:110-117 | with room, a new track under the next id; when full, nothing (properties in `SpawnStepSpawned`) |
| Store.SpawnAll | signal_analyzer.py:109-117 | creation over the leftover peaks in a chosen order (properties in `SpawnAllSpawned`) |
| Spawning.StoreUpdate | signal_analyzer.py:95-99 | replacing a live track by a well-formed one keeps the store well formed |
| Spawning.StoreAdd | signal_analyzer.py:110-113 | with room left, the next id is unused and a new well-formed track under it keeps the store well formed |
| Spawning.StoreTimedOut | signal_analyzer.py:142-150 | removing the timed-out tracks keeps the store well formed and leaves every track below the timeout |
| Spawning.SpawnedAdd | signal_analyzer.py:110-117 | creating a track for a peak not yet visited, under the next id, extends the creation relation |
| Spawning.AddKeys | signal_analyzer.py:111-113 | the new id joins the issued range and old tracks are kept |
| Spawning.AddFresh | signal_analyzer.py:113-117 | the new track is a fresh track on its own peak |
| Spawning.AddDistinct | signal_analyzer.py:109-113 | the new track's peak differs from the peaks of the tracks created before it in the block |
| Spawning.SpawnedSkip | signal_analyzer.py:110 | a peak met when the store is full is dropped and the relation still holds |
| Spawning.SpawnStepSpawned | signal_analyzer.py:109-117 | one creation step keeps the store well formed and the relation |
| Spawning.PeakSetSnoc | signal_analyzer.py:109 | the last peak of a list without repeats is not among the others |
| Spawning.SpawnAllSpawned | signal_analyzer.py:109-117 | for every visiting order of the leftover peaks, creation keeps the store within MAX_TRACKS, issues ids counter+1, counter+2, … above every earlier id, creates one fresh track per distinct leftover peak, and creates as many as the peaks or as the room allows |
| Choice.Smallest | signal_analyzer.py:124 | the least element of a non-empty set of ids |
| Choice.ListedUpToStep | signal_analyzer.py:124 | listing the least unvisited id next keeps the listed ids increasing, exactly those visited, and below every unvisited one |
| Choice.IncreasingUnique | signal_analyzer.py:124 | two increasing orderings of the same ids are equal |
| Analyzer.Silent | signal_analyzer.py:54 | a block is silent when it is non-empty and its mean square is below 1e-10; such a block changes nothing (see `RunBlock`, `ProcessBlock`) |
| Analyzer.ExpiredIds | signal_analyzer.py:143-146 | the collected keys are exactly the ids whose miss count reached the timeout, and removing them gives `TimedOut` |
| Analyzer.SignalAnalyzer.constructor | signal_analyzer.py:26-27 | a new analyser has no tracks and counter 0, and is valid |
| Analyzer.SignalAnalyzer.PredictAll | signal_analyzer.py:73-79 | every live track is refreshed, ids and counter unchanged, store still well formed |
| Analyzer.SignalAnalyzer.CommitMatches | signal_analyzer.py:95-99 | each matched track becomes `Matched` on its peak and every other track is unchanged |
| Analyzer.SignalAnalyzer.ChargeMisses | signal_analyzer.py:103-106 | every unmatched track's miss count rises by exactly one and matched tracks are unchanged |
| Analyzer.SignalAnalyzer.SpawnTracks | signal_analyzer.py:109-117 | the loop over the leftover peaks, in the order it chose, computes `SpawnAll`, and the result satisfies the creation relation |
| Analyzer.SignalAnalyzer.HandleTimeouts | signal_analyzer.py:142-150 | the tracks become `TimedOut` of the old ones, the counter is unchanged, and every remaining track is below the timeout |
| Analyzer.SignalAnalyzer.CollectRho | signal_analyzer.py:124-137 | the loop visits every live track once, in increasing id order, and collects `RhoValues` of that order |
| Analyzer.SignalAnalyzer.BlockRho | signal_analyzer.py:122-140 | the block's values are `RhoValues` of all live tracks in increasing id order, each in [-1, 1] when the correlation is bounded |
| Analyzer.SignalAnalyzer.Associate | signal_analyzer.py:73-106 | predicted tracks are matched greedily, committed tracks become `Matched` and all other tracks `Missed`, the leftover peaks are returned |
| Analyzer.StepWith | signal_analyzer.py:51-140 | one `_process_block` with its witnesses: a silent or peakless block leaves the store and yields nothing; otherwise the predicted tracks are matched greedily, associated, new tracks created, timeouts applied, and the values are `RhoValues` in increasing id order (its properties are the ensures of `ProcessBlock`) |
| Analyzer.BlockStep | signal_analyzer.py:51-140 | some run of `_process_block` relates the two stores and the values, as `StepWith` |
| Analyzer.BlockAt | signal_analyzer.py:166-169 | the block `samples[start:start + BLOCK]`, with its detected peaks, is related by `BlockStep` |
| Analyzer.Chain | signal_analyzer.py:166-172 | step k of the loop ran at `starts[k]`, from `states[k]` to `states[k + 1]`, yielding `outs[k]` |
| Analyzer.ChainSnoc | signal_analyzer.py:166-169 | one more step from the last state extends the chain |
| Analyzer.Record | signal_analyzer.py:166-170 | one more block extends the starts by `i`, keeps the remaining range of starts, extends the chain to the new store, and appends the block's mean to the aggregates exactly when it produced values |
| Analyzer.SignalAnalyzer.ProcessBlock | signal_analyzer.py:51-140 | a silent block or one without peaks changes nothing and returns no value; otherwise matching, misses, creation, timeouts and values follow in the source's order, and the analyser stays valid |
| Analyzer.SignalAnalyzer.RunBlock | signal_analyzer.py:166-169 | the block at `i` is cut from the buffer, its peaks detected and the block processed: the old and new store and the values are related by `BlockAt`; a silent or peakless block changes nothing and yields nothing; the analyser stays valid |
| Analyzer.SignalAnalyzer.NextBlock | signal_analyzer.py:166-172 | one iteration of the block loop: the block at `i` runs, the next start is `i` + HOP, the record of starts, stores and values is extended by this block, and its mean is appended to the aggregates exactly when it produced values |
| Analyzer.SignalAnalyzer.ScanBlocks | signal_analyzer.py:166-172 | every block of `BlockStarts` runs in order: block k takes the store from `states[k]` to `states[k + 1]` by `BlockAt` and yields the k-th values; the chain starts at the analyser's store on entry and ends at its store on exit; the aggregates are the means of the non-empty block results; no block leaves the tracks unchanged |
| Analyzer.SignalAnalyzer.ProcessFile | signal_analyzer.py:152-177 | an unreadable file or a sample-rate mismatch yields no summary and changes nothing; otherwise the tracks are reset, every block of `BlockStarts` runs in order by `BlockAt` from the empty store with the old counter to the final store, and the summary is the mean absolute aggregate of those blocks' values: 0.0 when no block scored, within [0, 1] for a bounded correlation |

## Left out

- Spectral front end: windowing, `np.fft.rfft`, the median noise floor and the threshold (signal_analyzer.py:28-30, 58-65). These are floating-point library numerics. The detected peak set is an input, `Detect`.
- Least-squares slope (signal_analyzer.py:44-49): `np.polyfit` is a foreign numeric call. It is the parameter `Fit`; only the five-sample gate is modelled.
- Pearson correlation value (signal_analyzer.py:130-137): it is floating-point `sqrt` arithmetic. It is the parameter `Corr`; `CorrBounded` states the [-1, 1] property the summary bound relies on.
- Floating point: samples and frequencies are exact reals, so float32/float64 rounding and NaN are not modelled. `Silent` compares the exact mean square with `1e-10`.
- File reading, the sample-rate check's exception and mono mixing (signal_analyzer.py:155-160) are I/O. They become the `AudioFile` value, which already holds mono samples.
- CSV creation and appends and every `print` (signal_analyzer.py:34-38, 52, 179-183) are output only. `block_index` and `n0` are used only in those messages and are left out.
- The constructor's reading of the options mapping with defaults (signal_analyzer.py:13-24) is modelled as the `Config` value and `Defaults`. A negative option value is not modelled: counts are `nat`, and FS and BLOCK must be positive with BLOCK >= 2.
- run_experiment.py and generate_signals.py are orchestration, randomness and signal synthesis, with no tracker logic. They are not part of this model.
- Analyzer.SignalAnalyzer.ProcessFile: the summary is modelled as the value `process_file` computes. Writing it to the CSV file is left out.

