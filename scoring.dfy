/**
 Which tracks contribute a correlation value in a block
 (signal_analyzer.py:122-140), how the block values roll up into the trial
 summary (170-177), and where the blocks start (166).
 */
module Scoring {
  import opened Options
  import opened Params
  import opened Tracks

  /**
   The Pearson correlation of a window against the time indices `0 .. W-1`;
   `None` when the product of the variances is too small (`denom <= 1e-9`).
   */
  type Corr = seq<real> -> Option<real>

  /** `hist[-W:]`. Python reads `[-0:]` as the whole history. */
  function Window(h: seq<real>, w: nat): (r: seq<real>)
    requires |h| >= w
    ensures w > 0 ==> |r| == w && r == h[|h| - w..]
    ensures w == 0 ==> r == h
  {
    if w == 0 then h else h[|h| - w..]
  }

  /** A track is scored when it was seen this block and has at least `W` samples. */
  predicate Qualifies(t: Track, w: nat) {
    t.seen && |t.hist| >= w
  }

  /** The value one track contributes, if any. */
  function RhoOf(t: Track, w: nat, corr: Corr): Option<real> {
    if Qualifies(t, w) then corr(Window(t.hist, w)) else None
  }

  /** The block's list of values, visiting the tracks in the order `ids`. */
  function RhoValues(m: map<nat, Track>, ids: seq<nat>, w: nat, corr: Corr): (r: seq<real>)
    requires forall k :: 0 <= k < |ids| ==> ids[k] in m
    ensures |r| <= |ids|
  {
    if ids == [] then []
    else
      (match RhoOf(m[ids[0]], w, corr) case Some(v) => [v] case None => [])
      + RhoValues(m, ids[1..], w, corr)
  }

  /**
   Every value of the block comes from a qualifying track, and every
   qualifying track whose window is not degenerate contributes its value.
   */
  lemma {:induction false} RhoValuesExact(m: map<nat, Track>, ids: seq<nat>, w: nat, corr: Corr)
    requires forall k :: 0 <= k < |ids| ==> ids[k] in m
    ensures forall v :: v in RhoValues(m, ids, w, corr) ==>
      exists k :: 0 <= k < |ids| && Qualifies(m[ids[k]], w) && corr(Window(m[ids[k]].hist, w)) == Some(v)
    ensures forall k :: 0 <= k < |ids| && Qualifies(m[ids[k]], w) && corr(Window(m[ids[k]].hist, w)).Some? ==>
      corr(Window(m[ids[k]].hist, w)).value in RhoValues(m, ids, w, corr)
  {
    if ids != [] {
      RhoValuesExact(m, ids[1..], w, corr);
      var rest := RhoValues(m, ids[1..], w, corr);
      forall v | v in RhoValues(m, ids, w, corr)
        ensures exists k :: 0 <= k < |ids| && Qualifies(m[ids[k]], w) && corr(Window(m[ids[k]].hist, w)) == Some(v)
      {
        if v !in rest {
          assert Qualifies(m[ids[0]], w) && corr(Window(m[ids[0]].hist, w)) == Some(v);
        } else {
          var k :| 0 <= k < |ids[1..]| && Qualifies(m[ids[1..][k]], w) && corr(Window(m[ids[1..][k]].hist, w)) == Some(v);
          assert ids[1..][k] == ids[k + 1];
        }
      }
      forall k | 0 <= k < |ids| && Qualifies(m[ids[k]], w) && corr(Window(m[ids[k]].hist, w)).Some?
        ensures corr(Window(m[ids[k]].hist, w)).value in RhoValues(m, ids, w, corr)
      {
        if k > 0 {
          assert ids[1..][k - 1] == ids[k];
        }
      }
    }
  }

  /** Visiting one more track appends that track's value, if any. */
  lemma {:induction false} RhoValuesSnoc(m: map<nat, Track>, ids: seq<nat>, id: nat, w: nat, corr: Corr)
    requires forall k :: 0 <= k < |ids| ==> ids[k] in m
    requires id in m
    ensures RhoValues(m, ids + [id], w, corr) == RhoValues(m, ids, w, corr) + RhoValues(m, [id], w, corr)
  {
    if ids == [] {
      assert ids + [id] == [id];
    } else {
      assert (ids + [id])[1..] == ids[1..] + [id];
      RhoValuesSnoc(m, ids[1..], id, w, corr);
    }
  }

  /** The correlation never leaves `[-1, 1]`, as a Pearson coefficient does not. */
  ghost predicate CorrBounded(corr: Corr) {
    forall w :: corr(w).Some? ==> -1.0 <= corr(w).value <= 1.0
  }

  /** With a bounded correlation every value of a block is in `[-1, 1]`. */
  lemma RhoValuesWithin(m: map<nat, Track>, ids: seq<nat>, w: nat, corr: Corr)
    requires forall k :: 0 <= k < |ids| ==> ids[k] in m
    requires CorrBounded(corr)
    ensures Within(RhoValues(m, ids, w, corr), -1.0, 1.0)
  {
    RhoValuesExact(m, ids, w, corr);
    var r := RhoValues(m, ids, w, corr);
    forall k | 0 <= k < |r| ensures -1.0 <= r[k] <= 1.0 {
      assert r[k] in r;
    }
  }

  /** A block in which no track qualifies yields no value. */
  lemma {:induction false} RhoValuesNoneQualify(m: map<nat, Track>, ids: seq<nat>, w: nat, corr: Corr)
    requires forall k :: 0 <= k < |ids| ==> ids[k] in m
    requires forall k :: 0 <= k < |ids| ==> !Qualifies(m[ids[k]], w)
    ensures RhoValues(m, ids, w, corr) == []
  {
    if ids != [] {
      RhoValuesNoneQualify(m, ids[1..], w, corr);
    }
  }

  function Sum(xs: seq<real>): real {
    if xs == [] then 0.0 else Sum(xs[..|xs| - 1]) + xs[|xs| - 1]
  }

  /** `np.mean` of a non-empty list. */
  function Mean(xs: seq<real>): real
    requires |xs| > 0
  {
    Sum(xs) / |xs| as real
  }

  predicate Within(xs: seq<real>, lo: real, hi: real) {
    forall k :: 0 <= k < |xs| ==> lo <= xs[k] <= hi
  }

  lemma {:induction false} SumWithin(xs: seq<real>, lo: real, hi: real)
    requires Within(xs, lo, hi)
    ensures |xs| as real * lo <= Sum(xs) <= |xs| as real * hi
  {
    if xs != [] {
      var init := xs[..|xs| - 1];
      SumWithin(init, lo, hi);
      var n := |init| as real;
      assert |xs| as real * lo == n * lo + lo;
      assert |xs| as real * hi == n * hi + hi;
      assert Sum(xs) == Sum(init) + xs[|xs| - 1];
    }
  }

  /** The mean of values in `[lo, hi]` lies in `[lo, hi]`. */
  lemma MeanWithin(xs: seq<real>, lo: real, hi: real)
    requires |xs| > 0 && Within(xs, lo, hi)
    ensures lo <= Mean(xs) <= hi
  {
    SumWithin(xs, lo, hi);
    var n := |xs| as real;
    assert Sum(xs) / n <= hi by {
      assert Sum(xs) <= n * hi;
    }
    assert lo <= Sum(xs) / n by {
      assert n * lo <= Sum(xs);
    }
  }

  /** The block aggregates: the mean of every non-empty block list, in block order. */
  function BlockMeans(blocks: seq<seq<real>>): (r: seq<real>)
    ensures |r| <= |blocks|
  {
    if blocks == [] then []
    else
      var last := blocks[|blocks| - 1];
      BlockMeans(blocks[..|blocks| - 1]) + (if last == [] then [] else [Mean(last)])
  }

  function AbsAll(xs: seq<real>): (r: seq<real>)
    ensures |r| == |xs|
    ensures forall k :: 0 <= k < |xs| ==> r[k] == if xs[k] < 0.0 then -xs[k] else xs[k]
  {
    if xs == [] then [] else [if xs[0] < 0.0 then -xs[0] else xs[0]] + AbsAll(xs[1..])
  }

  /** Collecting one more block appends its mean, if it has values. */
  lemma BlockMeansSnoc(blocks: seq<seq<real>>, b: seq<real>)
    ensures BlockMeans(blocks + [b]) == BlockMeans(blocks) + (if b == [] then [] else [Mean(b)])
  {
    assert (blocks + [b])[..|blocks|] == blocks;
  }

  /** `rho_mean_abs`: the mean absolute block aggregate, `0.0` when no block produced one. */
  function Summary(means: seq<real>): real {
    if means == [] then 0.0 else Mean(AbsAll(means))
  }

  /** With every correlation in `[-1, 1]` every block aggregate is in `[-1, 1]`. */
  lemma {:induction false} BlockMeansWithin(blocks: seq<seq<real>>)
    requires forall b :: b in blocks ==> Within(b, -1.0, 1.0)
    ensures Within(BlockMeans(blocks), -1.0, 1.0)
  {
    if blocks != [] {
      var init, last := blocks[..|blocks| - 1], blocks[|blocks| - 1];
      assert forall b :: b in init ==> b in blocks;
      BlockMeansWithin(init);
      if last != [] {
        MeanWithin(last, -1.0, 1.0);
      }
    }
  }

  /** Every block list is empty. */
  predicate NoneScored(blocks: seq<seq<real>>) {
    forall k :: 0 <= k < |blocks| ==> blocks[k] == []
  }

  /** Only the non-empty block lists contribute: there are no aggregates exactly when every block list is empty. */
  lemma {:induction false} BlockMeansEmpty(blocks: seq<seq<real>>)
    ensures BlockMeans(blocks) == [] <==> NoneScored(blocks)
  {
    if blocks != [] {
      var init, last := blocks[..|blocks| - 1], blocks[|blocks| - 1];
      BlockMeansEmpty(init);
      var tail := if last == [] then [] else [Mean(last)];
      assert BlockMeans(blocks) == BlockMeans(init) + tail;
      assert |BlockMeans(blocks)| == |BlockMeans(init)| + |tail|;
      assert NoneScored(blocks) <==> NoneScored(init) && last == [] by {
        assert forall k :: 0 <= k < |init| ==> init[k] == blocks[k];
      }
    }
  }

  /**
   With every correlation in `[-1, 1]` the trial summary is in `[0, 1]`, and
   it is `0.0` whenever no block scored.
   */
  lemma SummaryRange(blocks: seq<seq<real>>)
    requires forall b :: b in blocks ==> Within(b, -1.0, 1.0)
    ensures 0.0 <= Summary(BlockMeans(blocks)) <= 1.0
    ensures NoneScored(blocks) ==> Summary(BlockMeans(blocks)) == 0.0
  {
    BlockMeansWithin(blocks);
    BlockMeansEmpty(blocks);
    var means := BlockMeans(blocks);
    if means != [] {
      MeanWithin(AbsAll(means), 0.0, 1.0);
    }
  }

  /** `range(start, stop, step)`. */
  function Range(start: int, stop: int, step: nat): seq<int>
    requires step > 0
    decreases stop - start
  {
    if start < stop then [start] + Range(start + step, stop, step) else []
  }

  /** Taking the first start off a range and onto a prefix. */
  lemma RangeAdvance(prefix: seq<int>, start: int, stop: int, step: nat)
    requires step > 0 && start < stop
    ensures (prefix + [start]) + Range(start + step, stop, step) == prefix + Range(start, stop, step)
  {
    assert Range(start, stop, step) == [start] + Range(start + step, stop, step);
  }

  /** `starts` are the block starts of an `n`-sample buffer below `i`, and `i` is the next one if any. */
  ghost predicate StartsBefore(n: nat, c: Config, starts: seq<int>, i: int) {
    ConfigOk(c) && starts + Range(i, n - c.block, Hop(c)) == BlockStarts(n, c)
  }

  lemma StartsAdvance(n: nat, c: Config, starts: seq<int>, i: int, next: int)
    requires StartsBefore(n, c, starts, i) && i < n - c.block && next == i + Hop(c)
    ensures StartsBefore(n, c, starts + [i], next)
  {
    RangeAdvance(starts, i, n - c.block, Hop(c));
  }

  lemma {:induction false} RangeShape(start: int, stop: int, step: nat)
    requires step > 0
    ensures var r := Range(start, stop, step);
      (forall k :: 0 <= k < |r| ==> r[k] == start + k * step && r[k] < stop)
      && (r == [] <==> stop <= start)
      && (r != [] ==> stop <= r[|r| - 1] + step)
    decreases stop - start
  {
    if start < stop {
      RangeShape(start + step, stop, step);
      var r := Range(start, stop, step);
      var rest := Range(start + step, stop, step);
      assert r == [start] + rest;
      forall k | 1 <= k < |r| ensures r[k] == start + k * step {
        assert r[k] == rest[k - 1] == start + step + (k - 1) * step;
      }
    }
  }

  /** Start offsets of the analysis blocks: `range(0, len(audio) - BLOCK, HOP)`. */
  function BlockStarts(n: nat, c: Config): seq<int>
    requires ConfigOk(c)
  {
    Range(0, n - c.block, Hop(c))
  }

  /**
   The blocks start at `0, HOP, 2*HOP, ...`; each one ends strictly before the
   end of the buffer, and the next start would not leave room for a block
   that ends before it.
   */
  lemma BlockStartsShape(n: nat, c: Config)
    requires ConfigOk(c)
    ensures var r := BlockStarts(n, c);
      (forall k :: 0 <= k < |r| ==> r[k] == k * Hop(c) && r[k] + c.block < n)
      && (r == [] <==> n <= c.block)
      && (r != [] ==> n <= r[|r| - 1] + Hop(c) + c.block)
  {
    RangeShape(0, n - c.block, Hop(c));
  }
}
