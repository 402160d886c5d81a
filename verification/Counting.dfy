// How many there are: sequences without repetition, numbers below a bound, and
// sets matched one to one.
module Counting {
  ghost predicate Distinct(s: seq<nat>) {
    forall j, k :: 0 <= j < k < |s| ==> s[j] != s[k]
  }

  lemma {:induction false} DistinctCount(s: seq<nat>, elements: set<nat>)
    requires Distinct(s) && forall x :: x in elements <==> x in s
    ensures |elements| == |s|
  {
    if s == [] {
      assert elements == {};
    } else {
      var init, last := s[..|s| - 1], s[|s| - 1];
      forall x ensures x in elements - {last} <==> x in init {
        assert s == init + [last];
      }
      DistinctCount(init, elements - {last});
    }
  }

  lemma {:induction false} BelowCount(n: nat, all: set<nat>)
    requires forall x: nat :: x in all <==> x < n
    ensures |all| == n
  {
    if n == 0 {
      assert all == {};
    } else {
      BelowCount(n - 1, all - {n - 1});
    }
  }

  // `f` and `g` undo each other between `s` and `u`.
  lemma {:induction false} Bijection(s: set<nat>, u: set<nat>, f: seq<nat>, g: seq<nat>)
    requires forall x :: x in s ==> x < |f| && f[x] in u && f[x] < |g| && g[f[x]] == x
    requires forall y :: y in u ==> y < |g| && g[y] in s && g[y] < |f| && f[g[y]] == y
    ensures |s| == |u|
    decreases s
  {
    if s == {} {
      assert u == {};
    } else {
      var x :| x in s;
      Bijection(s - {x}, u - {f[x]}, f, g);
    }
  }
}
