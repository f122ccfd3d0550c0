/**
 A track and the value-level operations the tracker applies to it:
 prediction (signal_analyzer.py:40-49, 73-79), a committed match (95-99),
 a miss (105-106), creation (111-117) and timeout removal (142-150).
 */
module Tracks {
  import opened Options
  import opened Params
  import opened History

  /** One entry of the `tracks` dictionary. */
  datatype Track = Track(
    f0: real,            // current frequency estimate
    hist: seq<real>,     // bounded history, oldest first
    missCount: nat,      // blocks since the last match
    seen: bool,          // matched (or created) in the current block
    predicted: real)     // prediction made at the start of the current block

  /**
   The straight-line fit `np.polyfit(x, y, 1)[0]` over five samples `y` taken at
   time offsets `0, dt, 2dt, 3dt, 4dt`; `None` stands for `LinAlgError`.
   */
  type Fit = (seq<real>, real) -> Option<real>

  /** `_get_track_velocity`: slope of the last five history samples, 0 when fewer exist or the fit fails. */
  function Velocity(hist: seq<real>, dt: real, fit: Fit): (v: real)
    ensures |hist| < 5 ==> v == 0.0
    ensures |hist| >= 5 && fit(hist[|hist| - 5..], dt).None? ==> v == 0.0
    ensures |hist| >= 5 && fit(hist[|hist| - 5..], dt).Some? ==> v == fit(hist[|hist| - 5..], dt).value
  {
    if |hist| < 5 then 0.0
    else match fit(hist[|hist| - 5..], dt)
      case Some(slope) => slope
      case None => 0.0
  }

  /** The velocity reads nothing of the history but its last five entries. */
  lemma VelocityUsesLastFive(h1: seq<real>, h2: seq<real>, dt: real, fit: Fit)
    requires |h1| >= 5 && |h2| >= 5 && h1[|h1| - 5..] == h2[|h2| - 5..]
    ensures Velocity(h1, dt, fit) == Velocity(h2, dt, fit)
  {
  }

  /** Start of a block for one track: `predicted_f = f0 + velocity * dt`, `seen = False`. */
  function Refresh(t: Track, c: Config, fit: Fit): (r: Track)
    requires ConfigOk(c)
    ensures r.predicted == t.f0 + Velocity(t.hist, Dt(c), fit) * Dt(c)
    ensures !r.seen
    ensures r.f0 == t.f0 && r.hist == t.hist && r.missCount == t.missCount
  {
    t.(predicted := t.f0 + Velocity(t.hist, Dt(c), fit) * Dt(c), seen := false)
  }

  /** A track matched to `peak`. */
  function Matched(t: Track, peak: real, cap: nat): (r: Track)
    requires |t.hist| <= cap
  {
    t.(f0 := peak, hist := Append(t.hist, peak, cap), seen := true, missCount := 0)
  }

  /** A track left unmatched in a block with peaks. */
  function Missed(t: Track): (r: Track) {
    t.(missCount := t.missCount + 1)
  }

  /** A track created for an unmatched `peak`: `deque([peak], maxlen = cap)`. */
  function NewTrack(peak: real, cap: nat): (r: Track) {
    Track(peak, if cap == 0 then [] else [peak], 0, true, peak)
  }

  /** What every live track satisfies: a bounded history whose newest entry is `f0`. */
  predicate TrackOk(t: Track, cap: nat) {
    |t.hist| <= cap && (cap > 0 ==> |t.hist| > 0 && t.hist[|t.hist| - 1] == t.f0)
  }

  lemma RefreshKeepsTrackOk(t: Track, c: Config, fit: Fit)
    requires ConfigOk(c) && TrackOk(t, HistCap(c))
    ensures TrackOk(Refresh(t, c, fit), HistCap(c))
  {
  }

  lemma {:induction false} LifecycleKeepsTrackOk(t: Track, peak: real, c: Config)
    requires ConfigOk(c) && TrackOk(t, HistCap(c))
    ensures TrackOk(Matched(t, peak, HistCap(c)), HistCap(c))
    ensures var r := Matched(t, peak, HistCap(c)); r.f0 == peak && r.seen && r.missCount == 0
    ensures TrackOk(Missed(t), HistCap(c))
    ensures TrackOk(NewTrack(peak, HistCap(c)), HistCap(c))
    ensures |NewTrack(peak, HistCap(c)).hist| == Min(1, HistCap(c))
  {
  }

  /** `Refresh` applied to every live track (signal_analyzer.py:75-78). */
  function RefreshAll(m: map<nat, Track>, c: Config, fit: Fit): (r: map<nat, Track>)
    requires ConfigOk(c)
    ensures r.Keys == m.Keys
    ensures forall id :: id in r ==> r[id] == Refresh(m[id], c, fit)
  {
    map id | id in m :: Refresh(m[id], c, fit)
  }

  /** The tracks `_handle_timeouts` keeps. */
  function TimedOut(m: map<nat, Track>, timeout: nat): (r: map<nat, Track>)
    ensures forall id :: id in r <==> id in m && m[id].missCount < timeout
    ensures forall id :: id in r ==> r[id] == m[id]
    ensures forall id :: id in r ==> r[id].missCount < timeout
  {
    map id | id in m && m[id].missCount < timeout :: m[id]
  }

  /** Every live track is below the timeout: the state between two blocks. */
  predicate Settled(m: map<nat, Track>, timeout: nat) {
    forall id :: id in m ==> m[id].missCount < timeout
  }

  /** Timeout handling removes nothing from a settled store. */
  lemma SettledTimeoutIsIdentity(m: map<nat, Track>, timeout: nat)
    requires Settled(m, timeout)
    ensures TimedOut(m, timeout) == m
  {
  }
}
