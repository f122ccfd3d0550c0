/** Iteration over hashed collections, whose order the model leaves open or makes explicit. */
module Choice {

  /** Some element of a non-empty set: the next item a `for` loop over a Python set or dict yields. */
  method Pick<T>(s: set<T>) returns (x: T)
    requires s != {}
    ensures x in s
  {
    x :| x in s;
  }

  predicate Increasing(s: seq<nat>) {
    forall i, j :: 0 <= i < j < |s| ==> s[i] < s[j]
  }

  lemma IncreasingSnoc(s: seq<nat>, x: nat)
    requires Increasing(s) && forall k :: 0 <= k < |s| ==> s[k] < x
    ensures Increasing(s + [x])
  {
    var t := s + [x];
    forall i, j | 0 <= i < j < |t| ensures t[i] < t[j] {
      assert t[i] == s[i];
    }
  }

  /**
   `order` lists the keys of `all` outside `rest` in increasing order, each
   below every key still in `rest`: a visit of `all` in ascending order that
   has `rest` to go.
   */
  ghost predicate ListedUpTo(order: seq<nat>, all: set<nat>, rest: set<nat>) {
    rest <= all && Increasing(order)
    && (forall x :: x in order <==> x in all && x !in rest)
    && (forall k, x :: 0 <= k < |order| && x in rest ==> order[k] < x)
  }

  lemma ListedUpToStep(order: seq<nat>, all: set<nat>, rest: set<nat>, x: nat)
    requires ListedUpTo(order, all, rest) && x in rest && forall y :: y in rest ==> x <= y
    ensures ListedUpTo(order + [x], all, rest - {x})
  {
    IncreasingSnoc(order, x);
    var order' := order + [x];
    forall k, y | 0 <= k < |order'| && y in rest - {x} ensures order'[k] < y {
      if k < |order| {
        assert order'[k] == order[k];
      }
    }
  }

  /** The smallest key of a non-empty set of keys. */
  method Smallest(s: set<nat>) returns (m: nat)
    requires s != {}
    ensures m in s
    ensures forall x :: x in s ==> m <= x
  {
    m := Pick(s);
    var rest := s - {m};
    while rest != {}
      invariant rest <= s && m in s
      invariant forall x :: x in s && x !in rest ==> m <= x
      decreases rest
    {
      var x := Pick(rest);
      if x < m {
        m := x;
      }
      rest := rest - {x};
    }
  }

  /** An increasing enumeration of a set is unique. */
  lemma {:induction false} IncreasingUnique(a: seq<nat>, b: seq<nat>)
    requires Increasing(a) && Increasing(b)
    requires forall x :: x in a <==> x in b
    ensures a == b
  {
    assert a != [] ==> a[0] in b;
    assert b != [] ==> b[0] in a;
    if a != [] && b != [] {
      assert a[0] == b[0] by {
        var i :| 0 <= i < |b| && b[i] == a[0];
        var j :| 0 <= j < |a| && a[j] == b[0];
        assert b[0] <= b[i] && a[0] <= a[j];
      }
      forall x ensures x in a[1..] <==> x in b[1..] {
        if x in a[1..] {
          var i :| 1 <= i < |a| && a[i] == x;
          assert a[0] < x;
        }
        if x in b[1..] {
          var i :| 1 <= i < |b| && b[i] == x;
          assert b[0] < x;
        }
        assert x in a <==> x == a[0] || x in a[1..] by { assert a == [a[0]] + a[1..]; }
        assert x in b <==> x == b[0] || x in b[1..] by { assert b == [b[0]] + b[1..]; }
      }
      IncreasingUnique(a[1..], b[1..]);
      assert a == [a[0]] + a[1..] && b == [b[0]] + b[1..];
    }
  }
}
