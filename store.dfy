/**
 The dictionary of live tracks as a value: the structure it keeps between
 steps, the association step of a block (signal_analyzer.py:92-106) and the
 creation of new tracks for the unmatched peaks (109-117).
 */
module Store {
  import opened Params
  import opened Tracks
  import opened Matching

  /**
   `after` is `before` once the matches of a block are committed and every
   other track is charged a miss (signal_analyzer.py:92-106).
   */
  ghost predicate IsAssociated(before: map<nat, Track>, matched: set<Candidate>, cap: nat, after: map<nat, Track>)
    requires forall id :: id in before ==> |before[id].hist| <= cap
  {
    after.Keys == before.Keys
    && (forall c :: c in matched ==> c.id in before && after[c.id] == Matched(before[c.id], c.peak, cap))
    && (forall id :: id in before && (forall c :: c in matched ==> c.id != id) ==> after[id] == Missed(before[id]))
  }

  /** Capacity, issued ids and well-formed tracks. */
  ghost predicate StoreOk(c: Config, m: map<nat, Track>, counter: nat) {
    ConfigOk(c)
    && |m| <= c.maxTracks
    && (forall id :: id in m ==> 1 <= id <= counter)
    && (forall id :: id in m ==> TrackOk(m[id], HistCap(c)))
  }

  /**
   `after` is the store `before` once tracks have been created for the peaks
   `unmatched` (signal_analyzer.py:109-117): the new tracks take the ids
   `c0 + 1 .. c1`, each is a fresh track on its own unmatched peak, and there
   are as many as the peaks or as the room under `maxTracks` allows.
   */
  ghost predicate Spawned(before: map<nat, Track>, unmatched: set<real>, after: map<nat, Track>,
                          maxTracks: nat, cap: nat, c0: nat, c1: nat)
  {
    c0 <= c1
    && SpawnedKeys(before, after, c0, c1)
    && SpawnedFresh(unmatched, after, cap, c0, c1)
    && SpawnedDistinct(after, c0, c1)
    && c1 - c0 == if |before| + |unmatched| <= maxTracks then |unmatched| else maxTracks - |before|
  }

  /** The old tracks are kept unchanged under their ids, and the new ids are `c0 + 1 .. c1`. */
  ghost predicate SpawnedKeys(before: map<nat, Track>, after: map<nat, Track>, c0: nat, c1: nat) {
    (forall id :: id in after <==> id in before || c0 < id <= c1)
    && (forall id :: id in before ==> id <= c0 && after[id] == before[id])
  }

  /** Every new track is a fresh track on one of the peaks. */
  ghost predicate SpawnedFresh(unmatched: set<real>, after: map<nat, Track>, cap: nat, c0: nat, c1: nat) {
    forall id :: c0 < id <= c1 ==> id in after && after[id].f0 in unmatched && after[id] == NewTrack(after[id].f0, cap)
  }

  /** No two new tracks share a peak. */
  ghost predicate SpawnedDistinct(after: map<nat, Track>, c0: nat, c1: nat) {
    forall i, j :: c0 < i < j <= c1 && i in after && j in after ==> after[i].f0 != after[j].f0
  }

  /** The tracker's mutable part as a value: the tracks and the id counter. */
  datatype Registry = Registry(tracks: map<nat, Track>, counter: nat)

  /** Visiting one unmatched peak: a new track under the next id if the store has room. */
  function SpawnStep(r: Registry, p: real, maxTracks: nat, cap: nat): Registry {
    if |r.tracks| < maxTracks then Registry(r.tracks[r.counter + 1 := NewTrack(p, cap)], r.counter + 1)
    else r
  }

  /** Visiting the unmatched peaks in the order `ps`. */
  function SpawnAll(r: Registry, ps: seq<real>, maxTracks: nat, cap: nat): Registry {
    if ps == [] then r else SpawnStep(SpawnAll(r, ps[..|ps| - 1], maxTracks, cap), ps[|ps| - 1], maxTracks, cap)
  }

  predicate NoRepeats(ps: seq<real>) {
    forall i, j :: 0 <= i < j < |ps| ==> ps[i] != ps[j]
  }

  function PeakSet(ps: seq<real>): set<real> { set p | p in ps }
}
