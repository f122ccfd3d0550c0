/**
 The tracker state of `SignalAnalyzer` (signal_analyzer.py:12-183): the
 dictionary of live tracks and the id counter, the per-block step
 `_process_block`, `_handle_timeouts` and the per-file loop `process_file`.
 */
module Analyzer {
  import opened Options
  import opened Choice
  import opened Params
  import opened History
  import opened Tracks
  import opened Matching
  import opened Scoring
  import opened Store
  import opened Spawning

  function SumSquares(x: seq<real>): real {
    if x == [] then 0.0 else SumSquares(x[..|x| - 1]) + x[|x| - 1] * x[|x| - 1]
  }

  /** `np.mean(x**2) < 1e-10`; the mean of an empty block is NaN, which compares false. */
  predicate Silent(x: seq<real>) {
    |x| > 0 && SumSquares(x) / |x| as real < 0.0000000001
  }

  /** The spectral front end: the set of peak frequencies detected in a block. */
  type Detect = seq<real> -> set<real>

  /** What `sf.read` gives: mono samples and their sample rate, or a read failure. */
  datatype AudioFile = Decoded(samples: seq<real>, fs: int) | Unreadable

  /**
   The first loop of `_handle_timeouts` (signal_analyzer.py:143-146): the ids
   of the tracks whose miss count has reached `timeout`.
   */
  method ExpiredIds(m: map<nat, Track>, timeout: nat) returns (expired: set<nat>)
    ensures forall id :: id in expired <==> id in m && m[id].missCount >= timeout
    ensures m - expired == TimedOut(m, timeout)
  {
    expired := {};
    var rest := m.Keys;
    while rest != {}
      invariant rest <= m.Keys
      invariant forall id :: id in expired <==> id in m && id !in rest && m[id].missCount >= timeout
      decreases rest
    {
      var id := Pick(rest);
      if m[id].missCount >= timeout {
        expired := expired + {id};
      }
      rest := rest - {id};
    }
  }

  /**
   One `_process_block` from the store `before` to the store `after` on a
   block whose detected peaks are `peaks`, yielding the values `rhos`, with
   the greedy matches, the store once they are committed, the store once new
   tracks are created and the track order of the values as witnesses.
   */
  ghost predicate StepWith(c: Config, before: Registry, block: seq<real>, peaks: set<real>, fit: Fit, corr: Corr,
                           after: Registry, rhos: seq<real>, matches: seq<Candidate>,
                           associated: map<nat, Track>, spawned: map<nat, Track>, order: seq<nat>)
  {
    StoreOk(c, before.tracks, before.counter)
    && if Silent(block) || peaks == {} then after == before && rhos == []
    else
      var predicted := RefreshAll(before.tracks, c, fit);
      IsGreedyMatching(Candidates(predicted, peaks, Tol(c)), peaks, Elems(matches))
      && |matches| <= |peaks| && |matches| <= |before.tracks|
      && IsAssociated(predicted, Elems(matches), HistCap(c), associated)
      && Spawned(associated, peaks - PeaksOf(matches), spawned, c.maxTracks, HistCap(c), before.counter, after.counter)
      && after.tracks == TimedOut(spawned, c.timeoutBlocks)
      && Increasing(order) && (forall id :: id in order <==> id in after.tracks)
      && rhos == RhoValues(after.tracks, order, c.rhoWindow, corr)
  }

  /** Some run of `_process_block` leads from `before` to `after` and yields `rhos`. */
  ghost predicate BlockStep(c: Config, before: Registry, block: seq<real>, peaks: set<real>, fit: Fit, corr: Corr,
                            after: Registry, rhos: seq<real>)
  {
    exists matches, associated, spawned, order ::
      StepWith(c, before, block, peaks, fit, corr, after, rhos, matches, associated, spawned, order)
  }

  /** The block of `samples` at `start` took the store from `before` to `after` and yielded `rhos`. */
  ghost predicate BlockAt(c: Config, samples: seq<real>, detect: Detect, fit: Fit, corr: Corr,
                          start: int, before: Registry, after: Registry, rhos: seq<real>)
  {
    0 <= start && 0 <= c.block && start + c.block <= |samples|
    && var block := samples[start..start + c.block];
    BlockStep(c, before, block, detect(block), fit, corr, after, rhos)
  }

  /** `BlockAt` as a relation, for `Chain`. */
  ghost function BlockRel(c: Config, samples: seq<real>, detect: Detect, fit: Fit, corr: Corr)
    : (int, Registry, Registry, seq<real>) -> bool
  {
    (start: int, before: Registry, after: Registry, rhos: seq<real>) =>
      BlockAt(c, samples, detect, fit, corr, start, before, after, rhos)
  }

  /**
   The steps at `starts` ran in order: step `k` took the state from
   `states[k]` to `states[k + 1]` and yielded `outs[k]`.
   */
  ghost predicate Chain(step: (int, Registry, Registry, seq<real>) -> bool,
                        starts: seq<int>, states: seq<Registry>, outs: seq<seq<real>>)
  {
    |states| == |starts| + 1 && |outs| == |starts|
    && forall k :: 0 <= k < |starts| ==> step(starts[k], states[k], states[k + 1], outs[k])
  }

  lemma ChainSnoc(step: (int, Registry, Registry, seq<real>) -> bool,
                  starts: seq<int>, states: seq<Registry>, outs: seq<seq<real>>,
                  i: int, next: Registry, out: seq<real>)
    requires Chain(step, starts, states, outs) && step(i, states[|starts|], next, out)
    ensures Chain(step, starts + [i], states + [next], outs + [out])
  {
    var starts', states', outs' := starts + [i], states + [next], outs + [out];
    forall k | 0 <= k < |starts'|
      ensures step(starts'[k], states'[k], states'[k + 1], outs'[k])
    {
      if k < |starts| {
        assert starts'[k] == starts[k] && states'[k] == states[k] && states'[k + 1] == states[k + 1];
        assert outs'[k] == outs[k];
      }
    }
  }

  /** The record of the blocks so far, extended by the block at `i` which led to `after`. */
  lemma Record(c: Config, n: nat, step: (int, Registry, Registry, seq<real>) -> bool,
               starts: seq<int>, states: seq<Registry>, blockRhos: seq<seq<real>>,
               i: int, next: int, after: Registry, rhos: seq<real>)
    returns (starts': seq<int>, states': seq<Registry>, blockRhos': seq<seq<real>>)
    requires StartsBefore(n, c, starts, i) && i < n - c.block && next == i + Hop(c)
    requires Chain(step, starts, states, blockRhos) && step(i, states[|starts|], after, rhos)
    ensures starts' == starts + [i] && blockRhos' == blockRhos + [rhos]
    ensures StartsBefore(n, c, starts', next)
    ensures Chain(step, starts', states', blockRhos')
    ensures states'[0] == states[0] && states'[|starts'|] == after
    ensures BlockMeans(blockRhos') == BlockMeans(blockRhos) + (if rhos == [] then [] else [Mean(rhos)])
  {
    ChainSnoc(step, starts, states, blockRhos, i, after, rhos);
    StartsAdvance(n, c, starts, i, next);
    BlockMeansSnoc(blockRhos, rhos);
    starts', states', blockRhos' := starts + [i], states + [after], blockRhos + [rhos];
  }

  class SignalAnalyzer {
    const cfg: Config
    var tracks: map<nat, Track>
    var counter: nat

    /** The structure every step keeps: capacity, issued ids, well-formed tracks. */
    ghost predicate Sound()
      reads this
    {
      StoreOk(cfg, tracks, counter)
    }

    /** Between blocks, in addition, every live track is below the timeout. */
    ghost predicate Valid()
      reads this
    {
      Sound() && Settled(tracks, cfg.timeoutBlocks)
    }

    constructor (config: Config)
      requires ConfigOk(config)
      ensures Valid()
      ensures cfg == config && tracks == map[] && counter == 0
    {
      cfg := config;
      tracks := map[];
      counter := 0;
    }

    /** Predict every live track and clear its `seen` flag (signal_analyzer.py:73-79). */
    method PredictAll(fit: Fit)
      requires Sound()
      modifies this
      ensures Sound() && counter == old(counter)
      ensures tracks == RefreshAll(old(tracks), cfg, fit)
    {
      ghost var before := tracks;
      var rest := tracks.Keys;
      while rest != {}
        invariant rest <= before.Keys && tracks.Keys == before.Keys
        invariant forall id :: id in tracks ==>
          tracks[id] == if id in rest then before[id] else Refresh(before[id], cfg, fit)
        invariant counter == old(counter)
        decreases rest
      {
        var id := Pick(rest);
        tracks := tracks[id := Refresh(tracks[id], cfg, fit)];
        rest := rest - {id};
      }
      forall id | id in tracks ensures TrackOk(tracks[id], HistCap(cfg)) {
        RefreshKeepsTrackOk(before[id], cfg, fit);
      }
    }

    /** Apply the committed matches (signal_analyzer.py:95-99). */
    method CommitMatches(matches: seq<Candidate>)
      requires Sound()
      requires OneToOne(matches)
      requires forall c :: c in matches ==> c.id in tracks
      modifies this
      ensures Sound() && counter == old(counter)
      ensures tracks.Keys == old(tracks).Keys
      ensures forall c :: c in matches ==> tracks[c.id] == Matched(old(tracks)[c.id], c.peak, HistCap(cfg))
      ensures forall id :: id in tracks && id !in IdsOf(matches) ==> tracks[id] == old(tracks)[id]
    {
      ghost var before := tracks;
      var cap := HistCap(cfg);
      for i := 0 to |matches|
        invariant tracks.Keys == before.Keys && counter == old(counter)
        invariant forall id :: id in before ==> TrackOk(before[id], cap)
        invariant forall j :: 0 <= j < i ==> tracks[matches[j].id] == Matched(before[matches[j].id], matches[j].peak, cap)
        invariant forall id :: id in tracks && (forall j :: 0 <= j < i ==> matches[j].id != id) ==> tracks[id] == before[id]
      {
        var c := matches[i];
        assert tracks[c.id] == before[c.id];
        tracks := tracks[c.id := Matched(tracks[c.id], c.peak, cap)];
      }
      forall id | id in tracks ensures TrackOk(tracks[id], cap) {
        LifecycleKeepsTrackOk(before[id], 0.0, cfg);
        if exists j :: 0 <= j < |matches| && matches[j].id == id {
          var j :| 0 <= j < |matches| && matches[j].id == id;
          LifecycleKeepsTrackOk(before[id], matches[j].peak, cfg);
        }
      }
    }

    /** Charge a miss to every track that was not matched (signal_analyzer.py:103-106). */
    method ChargeMisses(matchedIds: set<nat>)
      requires Sound()
      modifies this
      ensures Sound() && counter == old(counter)
      ensures tracks.Keys == old(tracks).Keys
      ensures forall id :: id in tracks ==>
        tracks[id] == if id in matchedIds then old(tracks)[id] else Missed(old(tracks)[id])
    {
      ghost var before := tracks;
      var rest := tracks.Keys - matchedIds;
      while rest != {}
        invariant rest <= before.Keys - matchedIds && tracks.Keys == before.Keys
        invariant forall id :: id in tracks ==>
          tracks[id] == if id in matchedIds || id in rest then before[id] else Missed(before[id])
        invariant counter == old(counter)
        decreases rest
      {
        var id := Pick(rest);
        tracks := tracks[id := Missed(tracks[id])];
        rest := rest - {id};
      }
    }

    /**
     Create a track with a fresh id for each unmatched peak while the store has
     room (signal_analyzer.py:109-117). The peaks come from a set, so the order
     in which they receive ids is left open.
     */
    method SpawnTracks(unmatched: set<real>) returns (ghost visited: seq<real>)
      requires Sound()
      modifies this
      ensures Sound()
      ensures NoRepeats(visited) && PeakSet(visited) == unmatched
      ensures Registry(tracks, counter) == SpawnAll(Registry(old(tracks), old(counter)), visited, cfg.maxTracks, HistCap(cfg))
      ensures Spawned(old(tracks), unmatched, tracks, cfg.maxTracks, HistCap(cfg), old(counter), counter)
    {
      ghost var start := Registry(tracks, counter);
      var cap := HistCap(cfg);
      visited := [];
      var rest := unmatched;
      while rest != {}
        invariant rest <= unmatched && NoRepeats(visited)
        invariant forall p :: p in visited <==> p in unmatched && p !in rest
        invariant Registry(tracks, counter) == SpawnAll(start, visited, cfg.maxTracks, cap)
        decreases rest
      {
        var p := Pick(rest);
        if |tracks| < cfg.maxTracks {
          counter := counter + 1;
          tracks := tracks[counter := NewTrack(p, cap)];
        }
        assert (visited + [p])[..|visited|] == visited;
        visited := visited + [p];
        rest := rest - {p};
      }
      assert PeakSet(visited) == unmatched by {
        forall p ensures p in PeakSet(visited) <==> p in unmatched {
          assert p in PeakSet(visited) <==> p in visited;
        }
      }
      SpawnAllSpawned(cfg, start.tracks, start.counter, visited);
    }

    /** `_handle_timeouts`: collect the ids whose miss count reached the limit, then drop them. */
    method HandleTimeouts()
      requires Sound()
      modifies this
      ensures Valid() && counter == old(counter)
      ensures tracks == TimedOut(old(tracks), cfg.timeoutBlocks)
    {
      var expired := ExpiredIds(tracks, cfg.timeoutBlocks);
      StoreTimedOut(cfg, tracks, counter, cfg.timeoutBlocks);
      tracks := tracks - expired;
    }

    /**
     The block's correlation values, visiting the tracks in the dictionary's
     order, which is ascending id order since ids are issued in increasing
     order (signal_analyzer.py:122-140).
     */
    method CollectRho(corr: Corr) returns (vals: seq<real>, ghost order: seq<nat>)
      requires Sound()
      ensures Increasing(order) && forall id :: id in order <==> id in tracks
      ensures vals == RhoValues(tracks, order, cfg.rhoWindow, corr)
    {
      vals, order := [], [];
      var rest := tracks.Keys;
      while rest != {}
        invariant ListedUpTo(order, tracks.Keys, rest)
        invariant vals == RhoValues(tracks, order, cfg.rhoWindow, corr)
        decreases rest
      {
        var id := Smallest(rest);
        var r := RhoOf(tracks[id], cfg.rhoWindow, corr);
        vals := vals + if r.Some? then [r.value] else [];
        assert [id][1..] == [];
        RhoValuesSnoc(tracks, order, id, cfg.rhoWindow, corr);
        ListedUpToStep(order, tracks.Keys, rest, id);
        order := order + [id];
        rest := rest - {id};
      }
    }

    /** `CollectRho`, whose values are correlations when `corr` yields only those. */
    method BlockRho(corr: Corr) returns (vals: seq<real>, ghost order: seq<nat>)
      requires Sound()
      ensures Increasing(order) && forall id :: id in order <==> id in tracks
      ensures vals == RhoValues(tracks, order, cfg.rhoWindow, corr)
      ensures CorrBounded(corr) ==> Within(vals, -1.0, 1.0)
    {
      vals, order := CollectRho(corr);
      if CorrBounded(corr) {
        RhoValuesWithin(tracks, order, cfg.rhoWindow, corr);
      }
    }

    /**
     The part of `_process_block` between detection and track creation
     (signal_analyzer.py:73-106): predict every track, match the tracks to the
     peaks greedily, commit the matches and charge the misses.
     */
    method Associate(peaks: set<real>, fit: Fit) returns (matches: seq<Candidate>, unmatched: set<real>)
      requires Sound()
      modifies this
      ensures Sound() && counter == old(counter)
      ensures IsGreedyMatching(Candidates(RefreshAll(old(tracks), cfg, fit), peaks, Tol(cfg)), peaks, Elems(matches))
      ensures |matches| <= |peaks| && |matches| <= |old(tracks)|
      ensures IsAssociated(RefreshAll(old(tracks), cfg, fit), Elems(matches), HistCap(cfg), tracks)
      ensures unmatched == peaks - PeaksOf(matches)
    {
      PredictAll(fit);
      var matchedIds;
      matches, matchedIds, unmatched := MatchBlock(tracks, peaks, Tol(cfg));
      CommitMatches(matches);
      ChargeMisses(matchedIds);
    }

    /**
     `_process_block` on a block whose detected peaks are `peaks`. A silent
     block is skipped before any bookkeeping; a block without peaks only runs
     the timeouts, which remove nothing between blocks. Otherwise the tracks
     are predicted, matched greedily to the peaks and charged misses, new
     tracks are created and timed-out ones dropped, and the block's
     correlation values are returned in track order.
     */
    method ProcessBlock(block: seq<real>, peaks: set<real>, fit: Fit, corr: Corr)
      returns (rhoVals: seq<real>, ghost matches: seq<Candidate>, ghost associated: map<nat, Track>,
               ghost spawned: map<nat, Track>, ghost order: seq<nat>)
      requires Valid()
      modifies this
      ensures Valid() && counter >= old(counter)
      ensures Silent(block) || peaks == {} ==>
        tracks == old(tracks) && counter == old(counter) && rhoVals == []
      ensures !Silent(block) && peaks != {} ==>
        var predicted := RefreshAll(old(tracks), cfg, fit);
        IsGreedyMatching(Candidates(predicted, peaks, Tol(cfg)), peaks, Elems(matches))
        && |matches| <= |peaks| && |matches| <= |old(tracks)|
        && IsAssociated(predicted, Elems(matches), HistCap(cfg), associated)
        && Spawned(associated, peaks - PeaksOf(matches), spawned, cfg.maxTracks, HistCap(cfg), old(counter), counter)
        && tracks == TimedOut(spawned, cfg.timeoutBlocks)
        && Increasing(order) && (forall id :: id in order <==> id in tracks)
        && rhoVals == RhoValues(tracks, order, cfg.rhoWindow, corr)
      ensures CorrBounded(corr) ==> Within(rhoVals, -1.0, 1.0)
    {
      matches, associated, spawned, order := [], map[], map[], [];
      if Silent(block) {
        rhoVals := [];
      } else if peaks == {} {
        SettledTimeoutIsIdentity(tracks, cfg.timeoutBlocks);
        HandleTimeouts();
        rhoVals := [];
      } else {
        var unmatched;
        matches, unmatched := Associate(peaks, fit);
        associated := tracks;
        ghost var visited := SpawnTracks(unmatched);
        spawned := tracks;
        HandleTimeouts();
        rhoVals, order := BlockRho(corr);
      }
    }

    /**
     One pass of the block loop of `process_file`: cut the block at `i` out
     of the samples, detect its peaks, then `_process_block`.
     */
    method RunBlock(samples: seq<real>, i: int, detect: Detect, fit: Fit, corr: Corr) returns (rhos: seq<real>)
      requires Valid() && 0 <= i && i + cfg.block <= |samples|
      modifies this
      ensures Valid() && counter >= old(counter)
      ensures var block := samples[i..i + cfg.block];
        Silent(block) || detect(block) == {} ==> tracks == old(tracks) && rhos == []
      ensures CorrBounded(corr) ==> Within(rhos, -1.0, 1.0)
      ensures BlockAt(cfg, samples, detect, fit, corr, i, Registry(old(tracks), old(counter)), Registry(tracks, counter), rhos)
    {
      ghost var before := Registry(tracks, counter);
      var block := samples[i..i + cfg.block];
      ghost var m, a, b, o;
      rhos, m, a, b, o := ProcessBlock(block, detect(block), fit, corr);
      assert StepWith(cfg, before, block, detect(block), fit, corr, Registry(tracks, counter), rhos, m, a, b, o);
    }

    /**
     `RunBlock` on the block at `i`, extending the record of the blocks
     before it by this one; `next` is the start of the following block.
     */
    method NextBlock(samples: seq<real>, i: int, detect: Detect, fit: Fit, corr: Corr,
                     ghost starts: seq<int>, ghost states: seq<Registry>, ghost blockRhos: seq<seq<real>>)
      returns (rhos: seq<real>, next: int, ghost starts': seq<int>, ghost states': seq<Registry>, ghost blockRhos': seq<seq<real>>)
      requires Valid() && 0 <= i && i < |samples| - cfg.block
      requires StartsBefore(|samples|, cfg, starts, i)
      requires Chain(BlockRel(cfg, samples, detect, fit, corr), starts, states, blockRhos)
      requires states[|starts|] == Registry(tracks, counter)
      modifies this
      ensures Valid() && counter >= old(counter)
      ensures starts' == starts + [i] && blockRhos' == blockRhos + [rhos]
      ensures next == i + Hop(cfg) && StartsBefore(|samples|, cfg, starts', next)
      ensures Chain(BlockRel(cfg, samples, detect, fit, corr), starts', states', blockRhos')
      ensures states'[0] == states[0] && states'[|starts'|] == Registry(tracks, counter)
      ensures BlockMeans(blockRhos') == BlockMeans(blockRhos) + (if rhos == [] then [] else [Mean(rhos)])
      ensures CorrBounded(corr) ==> Within(rhos, -1.0, 1.0)
    {
      rhos := RunBlock(samples, i, detect, fit, corr);
      next := i + Hop(cfg);
      starts', states', blockRhos' := Record(cfg, |samples|, BlockRel(cfg, samples, detect, fit, corr),
                                             starts, states, blockRhos, i, next, Registry(tracks, counter), rhos);
    }

    /**
     The block loop of `process_file`: every block `samples[i .. i + BLOCK]`
     for `i` in `range(0, len - BLOCK, HOP)` goes through `RunBlock` in order,
     and the mean of every non-empty block result is collected.
     */
    method ScanBlocks(samples: seq<real>, detect: Detect, fit: Fit, corr: Corr)
      returns (aggregates: seq<real>, ghost blockRhos: seq<seq<real>>, ghost starts: seq<int>,
               ghost states: seq<Registry>)
      requires Valid()
      modifies this
      ensures Valid() && counter >= old(counter)
      ensures starts == BlockStarts(|samples|, cfg) && |blockRhos| == |starts|
      ensures Chain(BlockRel(cfg, samples, detect, fit, corr), starts, states, blockRhos)
      ensures states[0] == Registry(old(tracks), old(counter)) && states[|starts|] == Registry(tracks, counter)
      ensures aggregates == BlockMeans(blockRhos)
      ensures CorrBounded(corr) ==> forall b :: b in blockRhos ==> Within(b, -1.0, 1.0)
      ensures starts == [] ==> tracks == old(tracks)
    {
      aggregates, blockRhos, starts, states := [], [], [], [Registry(tracks, counter)];
      var stop := |samples| - cfg.block;
      ghost var firstId := counter;
      var i := 0;
      while i < stop
        invariant Valid() && firstId <= counter
        invariant 0 <= i
        invariant StartsBefore(|samples|, cfg, starts, i)
        invariant Chain(BlockRel(cfg, samples, detect, fit, corr), starts, states, blockRhos)
        invariant states[0] == Registry(old(tracks), old(counter)) && states[|starts|] == Registry(tracks, counter)
        invariant aggregates == BlockMeans(blockRhos)
        invariant CorrBounded(corr) ==> forall b :: b in blockRhos ==> Within(b, -1.0, 1.0)
        invariant starts == [] ==> tracks == old(tracks)
        decreases stop - i
      {
        var rhos;
        rhos, i, starts, states, blockRhos := NextBlock(samples, i, detect, fit, corr, starts, states, blockRhos);
        if rhos != [] {
          aggregates := aggregates + [Mean(rhos)];
        }
      }
    }

    /**
     `process_file`: an unreadable file or one at another sample rate leaves
     the analyzer untouched and yields no summary. Otherwise the tracks are
     cleared (the id counter is not), every block `samples[i .. i + BLOCK]`
     for `i` in `range(0, len - BLOCK, HOP)` is processed in order, and the
     summary is the mean absolute value of the non-empty block means.
     */
    method ProcessFile(file: AudioFile, detect: Detect, fit: Fit, corr: Corr)
      returns (summary: Option<real>, ghost blockRhos: seq<seq<real>>, ghost starts: seq<int>,
               ghost states: seq<Registry>)
      requires Valid()
      modifies this
      ensures Valid() && counter >= old(counter)
      ensures file.Unreadable? || file.fs != cfg.fs ==>
        summary == None && tracks == old(tracks) && counter == old(counter)
      ensures file.Decoded? && file.fs == cfg.fs ==>
        starts == BlockStarts(|file.samples|, cfg) && |blockRhos| == |starts|
        && Chain(BlockRel(cfg, file.samples, detect, fit, corr), starts, states, blockRhos)
        && states[0] == Registry(map[], old(counter)) && states[|starts|] == Registry(tracks, counter)
        && summary == Some(Summary(BlockMeans(blockRhos)))
        && (NoneScored(blockRhos) ==> summary == Some(0.0))
        && (CorrBounded(corr) ==> 0.0 <= summary.value <= 1.0)
        && (starts == [] ==> tracks == map[])
    {
      blockRhos, starts, states := [], [], [];
      if file.Unreadable? || file.fs != cfg.fs {
        summary := None;
        return;
      }
      tracks := map[];
      var aggregates;
      aggregates, blockRhos, starts, states := ScanBlocks(file.samples, detect, fit, corr);
      summary := Some(Summary(aggregates));
      BlockMeansEmpty(blockRhos);
      if CorrBounded(corr) {
        SummaryRange(blockRhos);
      }
    }
  }
}
