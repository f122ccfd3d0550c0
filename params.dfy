/**
 Configuration of the analyser (signal_analyzer.py:13-24): the option values
 and the quantities derived from them in the constructor.
 */
module Params {

  datatype Config = Config(
    fs: int,            // sample rate, Hz
    block: int,         // block length, samples
    bandMin: int,       // analysis band, Hz (used only by the spectral front end)
    bandMax: int,
    peakThresh: real,   // detection threshold (front end only)
    maxTracks: nat,
    timeoutBlocks: nat,
    smooth: nat,
    rhoWindow: nat)

  /** The values taken when an option is absent from the configuration mapping. */
  const Defaults := Config(48000, 4096, 500, 18000, 6.0, 50, 20, 10, 25)

  /**
   What the constructor and the block loop need: a positive sample rate
   (the tolerance divides by it) and a block of at least two samples, so that
   the hop `block // 2` is a positive step for the segmentation range.
   */
  predicate ConfigOk(c: Config) {
    c.fs > 0 && c.block >= 2
  }

  /** HOP = BLOCK // 2. */
  function Hop(c: Config): (h: nat)
    requires ConfigOk(c)
    ensures 1 <= h && 2 * h <= c.block <= 2 * h + 1
  {
    c.block / 2
  }

  /** Hop duration in seconds, the time step of the velocity prediction. */
  function Dt(c: Config): (dt: real)
    requires ConfigOk(c)
    ensures dt > 0.0
  {
    Hop(c) as real / c.fs as real
  }

  /** TOL_HZ = 3 * (FS / BLOCK): three FFT bin widths. */
  function Tol(c: Config): (t: real)
    requires ConfigOk(c)
    ensures t > 0.0
    ensures t * c.block as real == 3.0 * c.fs as real
  {
    3.0 * (c.fs as real / c.block as real)
  }

  /** Capacity of a track's frequency history: deque(maxlen = SMOOTH * 5). */
  function HistCap(c: Config): nat {
    c.smooth * 5
  }

  lemma DefaultsOk()
    ensures ConfigOk(Defaults)
    ensures Hop(Defaults) == 2048 && HistCap(Defaults) == 50
    ensures Tol(Defaults) == 35.15625
  {
  }
}
