/** Smooth weighted round robin over unbounded integers: what one call of the
    balancer does to the credits, and what a run of calls picks. */
module RoundRobinSpec {

  function Sum(s: seq<int>): int {
    if s == [] then 0 else Sum(s[..|s| - 1]) + s[|s| - 1]
  }

  /** The credits once every node has received its weight. */
  function Added(credits: seq<int>, weights: seq<int>): seq<int>
    requires |credits| == |weights|
  {
    seq(|credits|, i requires 0 <= i < |credits| => credits[i] + weights[i])
  }

  /** The lowest index that holds a maximal value. */
  function FirstMax(s: seq<int>): (best: nat)
    requires s != []
    ensures best < |s|
    ensures forall i | 0 <= i < |s| :: s[i] <= s[best]
    ensures forall i | 0 <= i < best :: s[i] < s[best]
  {
    var last := |s| - 1;
    if last == 0 then 0 else
      var best := FirstMax(s[..last]);
      if s[last] > s[best] then last else best
  }

  function Step(weights: seq<int>, credits: seq<int>): seq<int>
    requires |credits| == |weights| > 0
  {
    var added := Added(credits, weights);
    var best := FirstMax(added);
    added[best := added[best] - Sum(weights)]
  }

  /** The credits after `t` calls on a fresh balancer. */
  function Credits(weights: seq<int>, t: nat): (credits: seq<int>)
    requires weights != []
    ensures |credits| == |weights|
  {
    if t == 0 then seq(|weights|, _ => 0) else Step(weights, Credits(weights, t - 1))
  }

  /** The credits call number `t` chooses from. */
  function Offered(weights: seq<int>, t: nat): seq<int>
    requires weights != []
  {
    Added(Credits(weights, t), weights)
  }

  /** The peer call number `t` returns (calls are numbered from 0). */
  function Pick(weights: seq<int>, t: nat): (peer: nat)
    requires weights != []
    ensures peer < |weights|
  {
    FirstMax(Offered(weights, t))
  }

  /** The peers returned by the first `t` calls, in order. */
  function Picks(weights: seq<int>, t: nat): (picks: seq<nat>)
    requires weights != []
    ensures |picks| == t
  {
    if t == 0 then [] else Picks(weights, t - 1) + [Pick(weights, t - 1)]
  }

  /** How many of the first `t` calls returned `peer`. */
  function Count(weights: seq<int>, peer: nat, t: nat): nat
    requires weights != []
  {
    Times(Picks(weights, t), peer)
  }

  function Times(picks: seq<nat>, peer: nat): nat {
    multiset(picks)[peer]
  }

  ghost predicate NonNegative(s: seq<int>) {
    forall i | 0 <= i < |s| :: 0 <= s[i]
  }

  lemma FirstMaxOfPrefix(s: seq<int>, n: nat)
    requires 0 < n < |s|
    ensures FirstMax(s[..n + 1]) == if s[n] > s[FirstMax(s[..n])] then n else FirstMax(s[..n])
  {
    assert s[..n + 1][..n] == s[..n];
  }

  lemma SumOfPrefix(s: seq<int>, n: nat)
    requires n < |s|
    ensures Sum(s[..n + 1]) == Sum(s[..n]) + s[n]
  {
    assert s[..n + 1][..n] == s[..n];
  }

  lemma {:induction false} SumAdded(a: seq<int>, b: seq<int>)
    requires |a| == |b|
    ensures Sum(Added(a, b)) == Sum(a) + Sum(b)
  {
    if a != [] {
      var last := |a| - 1;
      SumAdded(a[..last], b[..last]);
      assert Added(a, b)[..last] == Added(a[..last], b[..last]);
    }
  }

  lemma {:induction false} SumUpdate(s: seq<int>, i: nat, v: int)
    requires i < |s|
    ensures Sum(s[i := v]) == Sum(s) - s[i] + v
  {
    var last := |s| - 1;
    if i == last {
      assert s[i := v][..last] == s[..last];
    } else {
      SumUpdate(s[..last], i, v);
      assert s[i := v][..last] == s[..last][i := v];
    }
  }

  lemma {:induction false} SumBounds(s: seq<int>, low: int, high: int)
    requires forall i | 0 <= i < |s| :: low <= s[i] <= high
    ensures low * |s| <= Sum(s) <= high * |s|
  {
    if s != [] {
      var n := |s| - 1;
      SumBounds(s[..n], low, high);
      assert low * (n + 1) == low * n + low && high * (n + 1) == high * n + high;
    }
  }

  /** A sequence of non-negative numbers that adds up to nothing holds only zeros. */
  lemma {:induction false} ZeroSum(s: seq<int>)
    requires NonNegative(s) && Sum(s) == 0
    ensures forall i | 0 <= i < |s| :: s[i] == 0
  {
    if s != [] {
      var init := s[..|s| - 1];
      SumBounds(init, 0, Max(init));
      ZeroSum(init);
      assert forall i | 0 <= i < |init| :: s[i] == init[i];
    }
  }

  ghost function Max(s: seq<int>): (m: int)
    ensures forall i | 0 <= i < |s| :: s[i] <= m
  {
    if s == [] then 0 else s[FirstMax(s)]
  }
}
