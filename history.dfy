/**
 The bounded frequency history of a track: a Python `deque` with a `maxlen`
 (signal_analyzer.py:97, 115). Appending to a full deque drops its oldest
 entry; a deque with `maxlen == 0` stays empty.
 */
module History {

  /** `d.append(x)` on a deque `d` whose `maxlen` is `cap`. */
  function Append(h: seq<real>, x: real, cap: nat): (r: seq<real>)
    requires |h| <= cap
    ensures |r| <= cap
    ensures |r| == if |h| < cap then |h| + 1 else cap
    ensures cap > 0 ==> r[|r| - 1] == x
  {
    if cap == 0 then []
    else if |h| < cap then h + [x]
    else h[1..] + [x]
  }

  /** The deque obtained by appending the values `xs`, in order, to an empty deque. */
  function Fill(xs: seq<real>, cap: nat): (r: seq<real>)
    ensures |r| <= cap
  {
    if xs == [] then [] else Append(Fill(xs[..|xs| - 1], cap), xs[|xs| - 1], cap)
  }

  function Min(a: nat, b: nat): nat { if a <= b then a else b }

  /**
   Reference characterisation of the bounded history: after any sequence of
   appends the deque holds exactly the last `min(|xs|, cap)` values appended,
   oldest first.
   */
  lemma {:induction false} FillKeepsNewest(xs: seq<real>, cap: nat)
    ensures Fill(xs, cap) == xs[|xs| - Min(|xs|, cap)..]
  {
    if xs != [] {
      var init, x := xs[..|xs| - 1], xs[|xs| - 1];
      FillKeepsNewest(init, cap);
      assert xs == init + [x];
      AppendToNewest(init, x, cap);
    }
  }

  /** Appending to the newest `cap` values of `xs` gives the newest `cap` values of `xs + [x]`. */
  lemma AppendToNewest(xs: seq<real>, x: real, cap: nat)
    ensures Append(xs[|xs| - Min(|xs|, cap)..], x, cap) == (xs + [x])[|xs| + 1 - Min(|xs| + 1, cap)..]
  {
    var k := |xs| - Min(|xs|, cap);
    var h := xs[k..];
    if cap > 0 {
      if |h| < cap {
        assert h + [x] == (xs + [x])[k..];
      } else {
        assert h[1..] + [x] == (xs + [x])[k + 1..];
      }
    }
  }

  /** One append keeps the history within capacity and makes `x` the newest entry. */
  lemma {:induction false} AppendIsShift(h: seq<real>, x: real, cap: nat)
    requires |h| <= cap
    ensures Append(h, x, cap) == (h + [x])[|h| + 1 - Min(|h| + 1, cap)..]
  {
    if cap > 0 && |h| == cap {
      assert (h + [x])[1..] == h[1..] + [x];
    }
  }
}
