/**
 Proofs about the store and the track-creation loop of
 signal_analyzer.py:109-117, on values.
 */
module Spawning {
  import opened Choice
  import opened Params
  import opened Tracks
  import opened Matching
  import opened Store

  lemma StoreUpdate(c: Config, m: map<nat, Track>, counter: nat, id: nat, t: Track)
    requires StoreOk(c, m, counter) && id in m && TrackOk(t, HistCap(c))
    ensures StoreOk(c, m[id := t], counter)
  {
    assert m[id := t].Keys == m.Keys;
  }

  lemma StoreAdd(c: Config, m: map<nat, Track>, counter: nat, t: Track)
    requires StoreOk(c, m, counter) && |m| < c.maxTracks && TrackOk(t, HistCap(c))
    ensures counter + 1 !in m && StoreOk(c, m[counter + 1 := t], counter + 1)
  {
  }

  lemma StoreTimedOut(c: Config, m: map<nat, Track>, counter: nat, timeout: nat)
    requires StoreOk(c, m, counter)
    ensures StoreOk(c, TimedOut(m, timeout), counter) && Settled(TimedOut(m, timeout), timeout)
  {
    SubsetCard(TimedOut(m, timeout).Keys, m.Keys);
  }

  /** Creating one more track for a peak not yet visited keeps `Spawned`. */
  lemma SpawnedAdd(before: map<nat, Track>, done: set<real>, m: map<nat, Track>, maxTracks: nat, cap: nat, c0: nat, next: nat, p: real)
    requires Spawned(before, done, m, maxTracks, cap, c0, next)
    requires p !in done && next + 1 !in m
    requires |m| == |before| + (next - c0) < maxTracks
    ensures Spawned(before, done + {p}, m[next + 1 := NewTrack(p, cap)], maxTracks, cap, c0, next + 1)
  {
    assert |done + {p}| == |done| + 1;
    AddKeys(before, m, c0, next, NewTrack(p, cap));
    AddFresh(done, m, cap, c0, next, p);
    AddDistinct(done, m, cap, c0, next, p);
  }

  lemma AddKeys(before: map<nat, Track>, m: map<nat, Track>, c0: nat, next: nat, t: Track)
    requires SpawnedKeys(before, m, c0, next) && c0 <= next
    ensures SpawnedKeys(before, m[next + 1 := t], c0, next + 1)
  {
  }

  lemma AddFresh(done: set<real>, m: map<nat, Track>, cap: nat, c0: nat, next: nat, p: real)
    requires SpawnedFresh(done, m, cap, c0, next)
    ensures SpawnedFresh(done + {p}, m[next + 1 := NewTrack(p, cap)], cap, c0, next + 1)
  {
    var m' := m[next + 1 := NewTrack(p, cap)];
    forall id | c0 < id <= next + 1 ensures id in m' && m'[id].f0 in done + {p} && m'[id] == NewTrack(m'[id].f0, cap) {
      if id <= next { assert m'[id] == m[id]; }
    }
  }

  lemma AddDistinct(done: set<real>, m: map<nat, Track>, cap: nat, c0: nat, next: nat, p: real)
    requires SpawnedFresh(done, m, cap, c0, next) && SpawnedDistinct(m, c0, next) && p !in done
    ensures SpawnedDistinct(m[next + 1 := NewTrack(p, cap)], c0, next + 1)
  {
    var m' := m[next + 1 := NewTrack(p, cap)];
    forall i, j | c0 < i < j <= next + 1 && i in m' && j in m' ensures m'[i].f0 != m'[j].f0 {
      assert m'[i] == m[i] && m[i].f0 in done;
      if j <= next { assert m'[j] == m[j]; }
    }
  }

  /** Visiting a peak once the store is full changes nothing and keeps `Spawned`. */
  lemma SpawnedSkip(before: map<nat, Track>, done: set<real>, m: map<nat, Track>, maxTracks: nat, cap: nat, c0: nat, next: nat, p: real)
    requires Spawned(before, done, m, maxTracks, cap, c0, next)
    requires p !in done
    requires |m| == |before| + (next - c0) >= maxTracks
    ensures Spawned(before, done + {p}, m, maxTracks, cap, c0, next)
  {
    assert |done + {p}| == |done| + 1;
  }

  /** Visiting one more peak, not visited before, keeps the store well formed and `Spawned`. */
  lemma SpawnStepSpawned(c: Config, before: map<nat, Track>, c0: nat, done: set<real>, r: Registry, p: real)
    requires StoreOk(c, r.tracks, r.counter) && |r.tracks| == |before| + (r.counter - c0)
    requires Spawned(before, done, r.tracks, c.maxTracks, HistCap(c), c0, r.counter) && p !in done
    ensures var r' := SpawnStep(r, p, c.maxTracks, HistCap(c));
      StoreOk(c, r'.tracks, r'.counter) && |r'.tracks| == |before| + (r'.counter - c0)
      && Spawned(before, done + {p}, r'.tracks, c.maxTracks, HistCap(c), c0, r'.counter)
  {
    var cap := HistCap(c);
    if |r.tracks| < c.maxTracks {
      var t := NewTrack(p, cap);
      LifecycleKeepsTrackOk(t, p, c);
      StoreAdd(c, r.tracks, r.counter, t);
      SpawnedAdd(before, done, r.tracks, c.maxTracks, cap, c0, r.counter, p);
    } else {
      SpawnedSkip(before, done, r.tracks, c.maxTracks, cap, c0, r.counter, p);
    }
  }

  /** Dropping the last peak of a list without repeats: it is not among the others. */
  lemma PeakSetSnoc(ps: seq<real>)
    requires NoRepeats(ps) && ps != []
    ensures var init, p := ps[..|ps| - 1], ps[|ps| - 1];
      NoRepeats(init) && PeakSet(ps) == PeakSet(init) + {p} && p !in PeakSet(init)
  {
    var init, p := ps[..|ps| - 1], ps[|ps| - 1];
    assert ps == init + [p];
    forall k | 0 <= k < |init| ensures init[k] != p {
      assert init[k] == ps[k];
    }
  }

  /**
   Creating tracks for distinct peaks, in any order, from a well-formed store
   yields a well-formed store that is `Spawned` from it.
   */
  lemma {:induction false} SpawnAllSpawned(c: Config, before: map<nat, Track>, c0: nat, ps: seq<real>)
    requires StoreOk(c, before, c0) && NoRepeats(ps)
    ensures var r := SpawnAll(Registry(before, c0), ps, c.maxTracks, HistCap(c));
      StoreOk(c, r.tracks, r.counter) && |r.tracks| == |before| + (r.counter - c0)
      && Spawned(before, PeakSet(ps), r.tracks, c.maxTracks, HistCap(c), c0, r.counter)
  {
    if ps == [] {
      assert PeakSet(ps) == {};
    } else {
      var init, p := ps[..|ps| - 1], ps[|ps| - 1];
      PeakSetSnoc(ps);
      SpawnAllSpawned(c, before, c0, init);
      SpawnStepSpawned(c, before, c0, PeakSet(init), SpawnAll(Registry(before, c0), init, c.maxTracks, HistCap(c)), p);
    }
  }
}
