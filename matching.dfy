/**
 Association of detected peaks with live tracks (signal_analyzer.py:81-101):
 candidate triples within the tolerance, sorted lexicographically, then
 committed greedily at most once per track and once per peak.
 */
module Matching {
  import opened Choice
  import opened Tracks

  /** An association candidate, the tuple `(dist, track_id, peak_f)`. */
  datatype Candidate = Candidate(dist: real, id: nat, peak: real)

  function Abs(x: real): real { if x < 0.0 then -x else x }

  /** Python's ordering of the tuples: by distance, then track id, then peak frequency. */
  predicate Less(a: Candidate, b: Candidate) {
    a.dist < b.dist
    || (a.dist == b.dist && (a.id < b.id || (a.id == b.id && a.peak < b.peak)))
  }

  lemma LessIsStrictTotalOrder(a: Candidate, b: Candidate, c: Candidate)
    ensures !Less(a, a)
    ensures Less(a, b) ==> !Less(b, a)
    ensures Less(a, b) && Less(b, c) ==> Less(a, c)
    ensures a != b ==> Less(a, b) || Less(b, a)
  {
  }

  /** `c` is the candidate the construction loop emits for its track and peak. */
  predicate IsCandidate(c: Candidate, tracks: map<nat, Track>, peaks: set<real>, tol: real) {
    c.id in tracks && c.peak in peaks
    && c.dist == Abs(tracks[c.id].predicted - c.peak)
    && c.dist < tol
  }

  /** All candidates of a block, as a set. */
  ghost function Candidates(tracks: map<nat, Track>, peaks: set<real>, tol: real): (r: set<Candidate>)
    ensures forall c :: c in r <==> IsCandidate(c, tracks, peaks, tol)
  {
    set id, p | id in tracks && p in peaks && Abs(tracks[id].predicted - p) < tol
      :: Candidate(Abs(tracks[id].predicted - p), id, p)
  }

  predicate Distinct(s: seq<Candidate>) {
    forall i, j :: 0 <= i < j < |s| ==> s[i] != s[j]
  }

  /** The inner loop of the candidate construction: the peaks close to one track's prediction. */
  method CandidatesOf(id: nat, pred: real, peaks: set<real>, tol: real) returns (cands: seq<Candidate>)
    ensures forall c :: c in cands <==>
      c.id == id && c.peak in peaks && c.dist == Abs(pred - c.peak) && c.dist < tol
    ensures Distinct(cands)
  {
    cands := [];
    var unseen := peaks;
    while unseen != {}
      invariant unseen <= peaks
      invariant forall c :: c in cands <==>
        c.id == id && c.peak in peaks && c.peak !in unseen && c.dist == Abs(pred - c.peak) && c.dist < tol
      invariant Distinct(cands)
      decreases unseen
    {
      var p := Pick(unseen);
      var dist := Abs(pred - p);
      if dist < tol {
        cands := cands + [Candidate(dist, id, p)];
      }
      unseen := unseen - {p};
    }
  }

  /**
   The two nested loops over the tracks and the peaks (signal_analyzer.py:85-89);
   both iterate over hashed collections, so the order of the list is left open.
   */
  method BuildCandidates(tracks: map<nat, Track>, peaks: set<real>, tol: real)
    returns (cands: seq<Candidate>)
    ensures forall c :: c in cands <==> IsCandidate(c, tracks, peaks, tol)
    ensures Distinct(cands)
  {
    cands := [];
    var ids := tracks.Keys;
    while ids != {}
      invariant ids <= tracks.Keys
      invariant forall c :: c in cands <==> IsCandidate(c, tracks, peaks, tol) && c.id !in ids
      invariant Distinct(cands)
      decreases ids
    {
      var id := Pick(ids);
      var more := CandidatesOf(id, tracks[id].predicted, peaks, tol);
      assert forall i, j :: 0 <= i < |cands| && 0 <= j < |more| ==> cands[i] != more[j] by {
        forall i, j | 0 <= i < |cands| && 0 <= j < |more| ensures cands[i] != more[j] {
          assert cands[i] in cands && more[j] in more;
        }
      }
      cands := cands + more;
      ids := ids - {id};
    }
  }

  /** Ascending order: no element is smaller than one before it. */
  predicate Sorted(s: seq<Candidate>) {
    forall i, j :: 0 <= i < j < |s| ==> !Less(s[j], s[i])
  }

  /** Putting an element no later element is smaller than in front of a sorted list keeps it sorted. */
  lemma SortedCons(y: Candidate, s: seq<Candidate>)
    requires Sorted(s) && forall z :: z in s ==> !Less(z, y)
    ensures Sorted([y] + s)
  {
    var r := [y] + s;
    forall i, j | 0 <= i < j < |r| ensures !Less(r[j], r[i]) {
      assert r[j] == s[j - 1];
      if i > 0 { assert r[i] == s[i - 1]; }
    }
  }

  /** `x` goes in front of a sorted list whose head is not smaller than it. */
  lemma InsertFront(x: Candidate, s: seq<Candidate>)
    requires Sorted(s) && s != [] && !Less(s[0], x)
    ensures Sorted([x] + s)
  {
    forall y | y in s ensures !Less(y, x) {
      LessIsStrictTotalOrder(y, s[0], x);
    }
    SortedCons(x, s);
  }

  /** The head of a sorted list smaller than `x` stays in front of `x` inserted into the tail. */
  lemma InsertBehind(x: Candidate, s: seq<Candidate>, rest: seq<Candidate>)
    requires Sorted(s) && s != [] && Less(s[0], x)
    requires Sorted(rest) && multiset(rest) == multiset(s[1..]) + multiset{x}
    ensures Sorted([s[0]] + rest) && multiset([s[0]] + rest) == multiset(s) + multiset{x}
  {
    assert s == [s[0]] + s[1..];
    forall y | y in rest ensures !Less(y, s[0]) {
      assert y in multiset(rest);
      LessIsStrictTotalOrder(s[0], x, s[0]);
    }
    SortedCons(s[0], rest);
  }

  /** Insert `x` into a sorted list before the first element not smaller than it. */
  function Insert(x: Candidate, s: seq<Candidate>): (r: seq<Candidate>)
    requires Sorted(s)
    ensures Sorted(r)
    ensures multiset(r) == multiset(s) + multiset{x}
  {
    if s == [] then [x]
    else if !Less(s[0], x) then
      InsertFront(x, s);
      [x] + s
    else
      var rest := Insert(x, s[1..]);
      InsertBehind(x, s, rest);
      [s[0]] + rest
  }

  /** Inserting a new element into a list without repeats gives a list without repeats. */
  lemma {:induction false} InsertDistinct(x: Candidate, s: seq<Candidate>)
    requires Sorted(s) && Distinct(s) && x !in s
    ensures Distinct(Insert(x, s))
  {
    if s != [] && Less(s[0], x) {
      assert s == [s[0]] + s[1..];
      InsertDistinct(x, s[1..]);
      var rest := Insert(x, s[1..]);
      assert s[0] !in rest by {
        assert s[0] !in multiset(s[1..]) + multiset{x};
      }
      assert Insert(x, s) == [s[0]] + rest;
    }
  }

  /** `associations.sort()`: an ordered permutation of the candidate list. */
  method SortCandidates(cands: seq<Candidate>) returns (sorted: seq<Candidate>)
    ensures Sorted(sorted)
    ensures multiset(sorted) == multiset(cands)
    ensures Distinct(cands) ==> Distinct(sorted)
  {
    sorted := [];
    for i := 0 to |cands|
      invariant Sorted(sorted)
      invariant multiset(sorted) == multiset(cands[..i])
      invariant Distinct(cands) ==> Distinct(sorted)
    {
      if Distinct(cands) {
        assert cands[i] !in cands[..i];
        assert cands[i] !in multiset(sorted);
        InsertDistinct(cands[i], sorted);
      }
      sorted := Insert(cands[i], sorted);
      assert cands[..i + 1] == cands[..i] + [cands[i]];
    }
    assert cands[..|cands|] == cands;
  }

  /**
   The sorted order is determined by the candidates alone: two ordered
   permutations of the same list are equal, whatever order the candidates
   were built in.
   */
  lemma {:induction false} SortedUnique(a: seq<Candidate>, b: seq<Candidate>)
    requires Sorted(a) && Sorted(b) && multiset(a) == multiset(b)
    ensures a == b
  {
    if a == [] {
      assert |b| == |multiset(b)| == 0;
    } else {
      assert |b| == |multiset(b)| == |a| > 0;
      HeadIsLeast(a, b[0]);
      HeadIsLeast(b, a[0]);
      LessIsStrictTotalOrder(a[0], b[0], a[0]);
      assert a[0] == b[0];
      TailMultiset(a);
      TailMultiset(b);
      SortedUnique(a[1..], b[1..]);
    }
  }

  lemma HeadIsLeast(s: seq<Candidate>, y: Candidate)
    requires Sorted(s) && s != [] && y in multiset(s)
    ensures !Less(y, s[0])
  {
    var k :| 0 <= k < |s| && s[k] == y;
    LessIsStrictTotalOrder(y, y, y);
  }

  lemma TailMultiset(s: seq<Candidate>)
    requires s != []
    ensures multiset(s[1..]) == multiset(s) - multiset{s[0]}
    ensures Sorted(s) ==> Sorted(s[1..])
  {
    assert s == [s[0]] + s[1..];
  }

  /** Two candidates compete when they share the track or the peak. */
  predicate Conflict(a: Candidate, b: Candidate) {
    a.id == b.id || a.peak == b.peak
  }

  /**
   The walk over the sorted list (signal_analyzer.py:92-101): `claimed` are the
   matched track ids, `free` the unmatched peaks; a candidate is committed
   when its track is unclaimed and its peak still free.
   */
  ghost function Walk(s: seq<Candidate>, claimed: set<nat>, free: set<real>): seq<Candidate>
    decreases |s|
  {
    if s == [] then []
    else if s[0].id !in claimed && s[0].peak in free then
      [s[0]] + Walk(s[1..], claimed + {s[0].id}, free - {s[0].peak})
    else Walk(s[1..], claimed, free)
  }

  function IdsOf(ms: seq<Candidate>): set<nat> { set c | c in ms :: c.id }
  function PeaksOf(ms: seq<Candidate>): set<real> { set c | c in ms :: c.peak }

  /**
   The greedy loop, with `matched_track_ids` and `unmatched_peaks` as the
   Python keeps them; `matches` lists the committed candidates in order.
   */
  method Greedy(sorted: seq<Candidate>, peaks: set<real>)
    returns (matches: seq<Candidate>, matchedIds: set<nat>, unmatched: set<real>)
    ensures matches == Walk(sorted, {}, peaks)
    ensures matchedIds == IdsOf(matches)
    ensures unmatched == peaks - PeaksOf(matches)
  {
    matches, matchedIds, unmatched := [], {}, peaks;
    for i := 0 to |sorted|
      invariant matches + Walk(sorted[i..], matchedIds, unmatched) == Walk(sorted, {}, peaks)
      invariant matchedIds == IdsOf(matches)
      invariant unmatched == peaks - PeaksOf(matches)
    {
      var c := sorted[i];
      assert sorted[i..][1..] == sorted[i + 1..];
      if c.id !in matchedIds && c.peak in unmatched {
        matches := matches + [c];
        matchedIds := matchedIds + {c.id};
        unmatched := unmatched - {c.peak};
      }
    }
    assert sorted[|sorted|..] == [];
    assert matches + [] == matches;
  }

  /** The walk commits only candidates of its input list. */
  lemma {:induction false} WalkFromInput(s: seq<Candidate>, claimed: set<nat>, free: set<real>)
    ensures forall c :: c in Walk(s, claimed, free) ==> c in s
  {
    if s != [] {
      if s[0].id !in claimed && s[0].peak in free {
        WalkFromInput(s[1..], claimed + {s[0].id}, free - {s[0].peak});
      } else {
        WalkFromInput(s[1..], claimed, free);
      }
    }
  }

  /** No two of the matches share a track or a peak. */
  predicate OneToOne(w: seq<Candidate>) {
    forall i, j :: 0 <= i < j < |w| ==> w[i].id != w[j].id && w[i].peak != w[j].peak
  }

  /**
   One-to-one: no two commits share a track or a peak, every committed track
   was unclaimed and every committed peak was free.
   */
  lemma {:induction false} WalkOneToOne(s: seq<Candidate>, claimed: set<nat>, free: set<real>)
    ensures OneToOne(Walk(s, claimed, free))
    ensures forall c :: c in Walk(s, claimed, free) ==> c.id !in claimed && c.peak in free
  {
    if s != [] {
      if s[0].id !in claimed && s[0].peak in free {
        var claimed', free' := claimed + {s[0].id}, free - {s[0].peak};
        var rest := Walk(s[1..], claimed', free');
        WalkOneToOne(s[1..], claimed', free');
        var w := Walk(s, claimed, free);
        assert w == [s[0]] + rest;
        forall i, j | 0 <= i < j < |w| ensures w[i].id != w[j].id && w[i].peak != w[j].peak {
          assert w[j] == rest[j - 1] && w[j] in rest;
          if i > 0 { assert w[i] == rest[i - 1]; }
        }
      } else {
        WalkOneToOne(s[1..], claimed, free);
      }
    }
  }

  /**
   At most one commit per free peak and one per unclaimed track that has a
   candidate: `#matches <= min(#peaks, #tracks)`.
   */
  lemma {:induction false} WalkBound(s: seq<Candidate>, claimed: set<nat>, free: set<real>)
    ensures |Walk(s, claimed, free)| <= |free|
    ensures |Walk(s, claimed, free)| <= |IdsOf(s) - claimed|
  {
    if s != [] {
      assert IdsOf(s[1..]) <= IdsOf(s) by {
        forall c | c in s[1..] ensures c in s { }
      }
      if s[0].id !in claimed && s[0].peak in free {
        WalkBound(s[1..], claimed + {s[0].id}, free - {s[0].peak});
        assert IdsOf(s[1..]) - (claimed + {s[0].id}) <= (IdsOf(s) - claimed) - {s[0].id};
        SubsetCard(IdsOf(s[1..]) - (claimed + {s[0].id}), (IdsOf(s) - claimed) - {s[0].id});
      } else {
        WalkBound(s[1..], claimed, free);
        SubsetCard(IdsOf(s[1..]) - claimed, IdsOf(s) - claimed);
      }
    }
  }

  lemma SubsetCard<T>(a: set<T>, b: set<T>)
    requires a <= b
    ensures |a| <= |b|
  {
    assert b == a + (b - a);
  }

  /** `d` is committed before `c` and takes its track or its peak. */
  predicate Beats(d: Candidate, c: Candidate) {
    Less(d, c) && Conflict(d, c)
  }

  /**
   The order-independent meaning of the greedy matching `m` over the candidate
   set `cands` with free peaks `free`: a candidate is matched exactly when its
   peak is free and no smaller matched candidate takes its track or its peak.
   */
  ghost predicate IsGreedyMatching(cands: set<Candidate>, free: set<real>, m: set<Candidate>) {
    m <= cands
    && forall c :: c in cands ==>
      (c in m <==> c.peak in free && !(exists d :: d in m && Beats(d, c)))
  }

  predicate StrictlySorted(s: seq<Candidate>) {
    forall i, j :: 0 <= i < j < |s| ==> Less(s[i], s[j])
  }

  lemma SortedDistinctIsStrict(s: seq<Candidate>)
    requires Sorted(s) && Distinct(s)
    ensures StrictlySorted(s)
  {
    forall i, j | 0 <= i < j < |s| ensures Less(s[i], s[j]) {
      LessIsStrictTotalOrder(s[i], s[j], s[i]);
    }
  }

  function Elems(s: seq<Candidate>): set<Candidate> { set c | c in s }


  /** The walk over a strictly sorted list, generalised to any claimed ids and free peaks. */
  lemma {:induction false} WalkIsGreedyFrom(s: seq<Candidate>, claimed: set<nat>, free: set<real>)
    requires StrictlySorted(s)
    ensures var w := Elems(Walk(s, claimed, free));
      forall c :: c in s ==>
        (c in w <==> c.id !in claimed && c.peak in free && !(exists d :: d in w && Beats(d, c)))
  {
    if s != [] {
      var h := s[0];
      var w := Elems(Walk(s, claimed, free));
      assert forall c :: c in s[1..] ==> Less(h, c) by {
        forall c | c in s[1..] ensures Less(h, c) {
          var k :| 0 <= k < |s[1..]| && s[1..][k] == c;
          assert s[k + 1] == c;
        }
      }
      assert h !in s[1..] by {
        if h in s[1..] { LessIsStrictTotalOrder(h, h, h); }
      }
      if h.id !in claimed && h.peak in free {
        var claimed', free' := claimed + {h.id}, free - {h.peak};
        var rest := Walk(s[1..], claimed', free');
        WalkIsGreedyFrom(s[1..], claimed', free');
        WalkFromInput(s[1..], claimed', free');
        assert w == {h} + Elems(rest);
        forall c | c in s
          ensures c in w <==> c.id !in claimed && c.peak in free && !(exists d :: d in w && Beats(d, c))
        {
          if c == h {
            forall d | d in w ensures !Beats(d, c) {
              if d != h { LessIsStrictTotalOrder(h, d, h); }
            }
          } else {
            assert c in s[1..];
            assert Beats(h, c) <==> c.id == h.id || c.peak == h.peak;
          }
        }
      } else {
        var rest := Walk(s[1..], claimed, free);
        WalkIsGreedyFrom(s[1..], claimed, free);
        WalkFromInput(s[1..], claimed, free);
        assert w == Elems(rest);
      }
    }
  }

  /** The greedy walk over a sorted list of distinct candidates is the greedy matching. */
  lemma WalkIsGreedy(s: seq<Candidate>, free: set<real>)
    requires Sorted(s) && Distinct(s)
    ensures IsGreedyMatching(Elems(s), free, Elems(Walk(s, {}, free)))
  {
    SortedDistinctIsStrict(s);
    WalkIsGreedyFrom(s, {}, free);
    WalkFromInput(s, {}, free);
  }

  /** `m` is greedy over `cands` when the tracks in `claimed` are already taken. */
  ghost predicate IsGreedyFrom(cands: set<Candidate>, claimed: set<nat>, free: set<real>, m: set<Candidate>) {
    m <= cands
    && forall c :: c in cands ==>
      (c in m <==> c.id !in claimed && c.peak in free && !(exists d :: d in m && Beats(d, c)))
  }

  lemma {:induction false} GreedyFromIsWalk(s: seq<Candidate>, claimed: set<nat>, free: set<real>, m: set<Candidate>)
    requires StrictlySorted(s)
    requires IsGreedyFrom(Elems(s), claimed, free, m)
    ensures m == Elems(Walk(s, claimed, free))
  {
    if s == [] {
      assert m == {};
    } else {
      var h := s[0];
      assert forall c :: c in s[1..] ==> Less(h, c) by {
        forall c | c in s[1..] ensures Less(h, c) {
          var k :| 0 <= k < |s[1..]| && s[1..][k] == c;
          assert s[k + 1] == c;
        }
      }
      assert Elems(s) == {h} + Elems(s[1..]);
      LessIsStrictTotalOrder(h, h, h);
      assert h !in Elems(s[1..]);
      if h.id !in claimed && h.peak in free {
        assert forall d :: d in m ==> !Beats(d, h) by {
          forall d | d in m ensures !Beats(d, h) {
            LessIsStrictTotalOrder(h, d, h);
          }
        }
        assert h in m;
        var m' := m - {h};
        var claimed', free' := claimed + {h.id}, free - {h.peak};
        forall c | c in Elems(s[1..])
          ensures c in m' <==> c.id !in claimed' && c.peak in free' && !(exists d :: d in m' && Beats(d, c))
        {
          assert Beats(h, c) <==> c.id == h.id || c.peak == h.peak;
        }
        GreedyFromIsWalk(s[1..], claimed', free', m');
        assert m == {h} + m';
      } else {
        assert h !in m;
        GreedyFromIsWalk(s[1..], claimed, free, m);
      }
    }
  }

  /**
   Determinism: over a sorted list of distinct candidates, the greedy walk is
   the only greedy matching, so the candidates alone decide which tracks get
   which peaks.
   */
  lemma GreedyMatchingIsWalk(s: seq<Candidate>, free: set<real>, m: set<Candidate>)
    requires Sorted(s) && Distinct(s)
    requires IsGreedyMatching(Elems(s), free, m)
    ensures m == Elems(Walk(s, {}, free))
  {
    SortedDistinctIsStrict(s);
    GreedyFromIsWalk(s, {}, free, m);
  }

  /** A greedy matching pairs each track with at most one peak and each peak with at most one track. */
  lemma GreedyMatchingOneToOne(cands: set<Candidate>, free: set<real>, m: set<Candidate>, c: Candidate, d: Candidate)
    requires IsGreedyMatching(cands, free, m)
    requires c in m && d in m && Conflict(c, d)
    ensures c == d
  {
    LessIsStrictTotalOrder(c, d, c);
    assert Less(c, d) ==> Beats(c, d);
    assert Less(d, c) ==> Beats(d, c);
  }

  /**
   The association pass of a block (signal_analyzer.py:81-101): every
   (track, peak) pair closer than `tol`, sorted, then committed greedily.
   The result is the greedy matching over the candidate pairs, one to one, of
   at most `min(#peaks, #tracks)` pairs; the peaks it leaves are returned.
   */
  method MatchBlock(tracks: map<nat, Track>, peaks: set<real>, tol: real)
    returns (matches: seq<Candidate>, matchedIds: set<nat>, unmatched: set<real>)
    ensures IsGreedyMatching(Candidates(tracks, peaks, tol), peaks, Elems(matches))
    ensures OneToOne(matches)
    ensures forall c :: c in matches ==> IsCandidate(c, tracks, peaks, tol)
    ensures matchedIds == IdsOf(matches) && unmatched == peaks - PeaksOf(matches)
    ensures |matches| <= |peaks| && |matches| <= |tracks|
  {
    var cands := BuildCandidates(tracks, peaks, tol);
    var sorted := SortCandidates(cands);
    matches, matchedIds, unmatched := Greedy(sorted, peaks);
    assert Elems(sorted) == Candidates(tracks, peaks, tol) by {
      forall c ensures c in sorted <==> c in cands {
        assert c in sorted <==> c in multiset(sorted);
      }
    }
    WalkIsGreedy(sorted, peaks);
    WalkOneToOne(sorted, {}, peaks);
    WalkFromInput(sorted, {}, peaks);
    WalkBound(sorted, {}, peaks);
    assert IdsOf(sorted) <= tracks.Keys;
    SubsetCard(IdsOf(sorted), tracks.Keys);
  }
}
