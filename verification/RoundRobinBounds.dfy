/** How far a run can stray from the fair shares. */
module RoundRobinBounds {
  import opened RoundRobinSpec
  import opened RoundRobinShares

  /** The n-th harmonic number. */
  function H(n: nat): (h: real)
    ensures n > 0 ==> 1.0 <= h <= n as real
  {
    if n == 0 then 0.0 else H(n - 1) + 1.0 / n as real
  }

  ghost predicate Within(members: set<nat>, n: nat) {
    forall i | i in members :: i < n
  }

  ghost function SumOn(s: seq<int>, members: set<nat>): int
    requires Within(members, |s|)
  {
    if members == {} then 0 else
      var i :| i in members;
      s[i] + SumOn(s, members - {i})
  }

  lemma {:induction false} SumOnSplit(s: seq<int>, members: set<nat>, i: nat)
    requires Within(members, |s|) && i in members
    ensures SumOn(s, members) == s[i] + SumOn(s, members - {i})
  {
    var j :| j in members && SumOn(s, members) == s[j] + SumOn(s, members - {j});
    if i != j {
      SumOnSplit(s, members - {j}, i);
      SumOnSplit(s, members - {i}, j);
      assert members - {i} - {j} == members - {j} - {i};
    }
  }

  lemma {:induction false} SumOnAtMost(s: seq<int>, members: set<nat>, high: int)
    requires Within(members, |s|) && forall i | i in members :: s[i] <= high
    ensures SumOn(s, members) <= |members| * high
  {
    if members != {} {
      var i :| i in members;
      SumOnSplit(s, members, i);
      SumOnAtMost(s, members - {i}, high);
    }
  }

  lemma {:induction false} SumOnAdded(a: seq<int>, b: seq<int>, members: set<nat>)
    requires |a| == |b| && Within(members, |a|)
    ensures SumOn(Added(a, b), members) == SumOn(a, members) + SumOn(b, members)
  {
    if members != {} {
      var i :| i in members;
      SumOnSplit(a, members, i);
      SumOnSplit(b, members, i);
      SumOnSplit(Added(a, b), members, i);
      SumOnAdded(a, b, members - {i});
    }
  }

  lemma {:induction false} SumOnAgree(a: seq<int>, b: seq<int>, members: set<nat>)
    requires Within(members, |a|) && Within(members, |b|) && forall i | i in members :: a[i] == b[i]
    ensures SumOn(a, members) == SumOn(b, members)
  {
    if members != {} {
      var i :| i in members;
      SumOnSplit(a, members, i);
      SumOnSplit(b, members, i);
      SumOnAgree(a, b, members - {i});
    }
  }

  lemma {:induction false} SumOnAtMostSum(s: seq<int>, members: set<nat>)
    requires NonNegative(s) && Within(members, |s|)
    ensures 0 <= SumOn(s, members) <= Sum(s)
  {
    if s == [] {
      assert members == {} by { if i :| i in members {} }
    } else {
      var last := |s| - 1;
      var rest := members - {last};
      SumOnAtMostSum(s[..last], rest);
      SumOnAgree(s[..last], s, rest);
      if last in members {
        SumOnSplit(s, members, last);
      } else {
        assert rest == members;
      }
    }
  }

  /** What `k` of `n` peers can be owed together: k * total * (H(n) - H(k)). */
  ghost function Allowance(total: int, n: nat, k: nat): real {
    total as real * k as real * (H(n) - H(k))
  }

  /** Leaving a maximum out of k + 1 peers leaves at most k / (k + 1) of the sum. */
  lemma AllowanceStep(total: int, n: nat, k: nat, without: int, owed: int, best: int)
    requires without <= k * best
    requires (owed - total) as real <= Allowance(total, n, k + 1) && owed == without + best
    ensures without as real <= Allowance(total, n, k)
  {
    hide H;
    LeaveOneOut(k, without, owed, best);
    HarmonicStep(k);
    AllowanceArithmetic(total as real, H(n) - H(k), k as real, without as real, owed as real);
  }

  lemma LeaveOneOut(k: nat, without: int, owed: int, best: int)
    requires without <= k * best && owed == without + best
    ensures (k as real + 1.0) * without as real <= k as real * owed as real
  {
    var product := k * best;
    assert k as real * best as real == product as real;
  }

  lemma HarmonicStep(k: nat)
    ensures H(k + 1) == H(k) + 1.0 / (k + 1) as real
  {
  }

  lemma AllowanceArithmetic(w: real, gap: real, k: real, without: real, owed: real)
    requires k >= 0.0 && (k + 1.0) * without <= k * owed
    requires owed - w <= w * (k + 1.0) * (gap - 1.0 / (k + 1.0))
    ensures without <= w * k * gap
  {
    var bound := w * (k + 1.0) * gap;
    assert w * (k + 1.0) * (1.0 / (k + 1.0)) == w;
    assert owed <= bound;
    Scale(k, owed, bound);
    Reorder(k, w, gap);
    Unscale(k + 1.0, without, w * k * gap);
  }

  lemma Reorder(k: real, w: real, gap: real)
    ensures k * (w * (k + 1.0) * gap) == (k + 1.0) * (w * k * gap)
  {
  }

  lemma Scale(a: real, x: real, y: real)
    requires a >= 0.0 && x <= y
    ensures a * x <= a * y
  {
  }

  lemma Unscale(a: real, x: real, y: real)
    requires a > 0.0 && a * x <= a * y
    ensures x <= y
  {
  }

  lemma {:induction false} MembersFit(members: set<nat>, n: nat)
    requires Within(members, n)
    ensures |members| <= n
  {
    if n > 0 {
      MembersFit(members - {n - 1}, n - 1);
    } else if i :| i in members {
      assert false;
    }
  }

  lemma {:induction false} HarmonicGrows(k: nat, n: nat)
    requires k <= n
    ensures H(k) <= H(n)
  {
    if k < n {
      HarmonicGrows(k, n - 1);
    }
  }

  lemma AllowanceIsNotNegative(weights: seq<int>, members: set<nat>)
    requires NonNegative(weights) && Within(members, |weights|)
    ensures 0.0 <= Allowance(Sum(weights), |weights|, |members|)
  {
    hide H, Sum;
    MembersFit(members, |weights|);
    HarmonicGrows(|members|, |weights|);
    SumOnAtMostSum(weights, {});
    ProductIsNotNegative(Sum(weights) as real, |members| as real);
    ProductIsNotNegative(Sum(weights) as real * |members| as real, H(|weights|) - H(|members|));
  }

  lemma ProductIsNotNegative(a: real, b: real)
    requires a >= 0.0 && b >= 0.0
    ensures a * b >= 0.0
  {
  }

  /** In every reachable state any set of peers is owed at most its allowance. */
  lemma {:induction false} HarmonicBound(weights: seq<int>, t: nat, members: set<nat>)
    requires weights != [] && NonNegative(weights) && Within(members, |weights|)
    ensures SumOn(Credits(weights, t), members) as real <= Allowance(Sum(weights), |weights|, |members|)
  {
    hide Allowance, H, SumOn, Sum, FirstMax, Step, Credits;
    if t == 0 {
      NothingOwedYet(weights);
      SumOnAtMost(Credits(weights, 0), members, 0);
      AllowanceIsNotNegative(weights, members);
    } else {
      var credits, added, after := Credits(weights, t - 1), Offered(weights, t - 1), Credits(weights, t);
      var best := FirstMax(added);
      CallPays(weights, t - 1);
      SumOnAdded(credits, weights, members);
      if best in members {
        HarmonicBound(weights, t - 1, members);
        SumOnAtMostSum(weights, members);
        SumOnSplit(added, members, best);
        SumOnSplit(after, members, best);
        SumOnAgree(added, after, members - {best});
      } else {
        var joined := members + {best};
        HarmonicBound(weights, t - 1, joined);
        SumOnAtMostSum(weights, joined);
        SumOnAdded(credits, weights, joined);
        SumOnSplit(added, joined, best);
        assert joined - {best} == members;
        SumOnAgree(added, after, members);
        SumOnAtMost(added, members, added[best]);
        AllowanceStep(Sum(weights), |weights|, |members|, SumOn(added, members), SumOn(added, joined), added[best]);
      }
    }
  }

  lemma NothingOwedYet(weights: seq<int>)
    requires weights != []
    ensures forall i | 0 <= i < |weights| :: Credits(weights, 0)[i] == 0
  {
  }

  lemma CallPays(weights: seq<int>, t: nat)
    requires weights != []
    ensures var added := Offered(weights, t);
      var best := FirstMax(added);
      Credits(weights, t + 1) == added[best := added[best] - Sum(weights)]
  {
  }

  /** Each single credit lies in (-W, W * (H(n) - 1)]. */
  lemma CreditRange(weights: seq<int>, t: nat, i: nat)
    requires Weighted(weights) && i < |weights|
    ensures -Sum(weights) < Credits(weights, t)[i]
    ensures Credits(weights, t)[i] as real <= Sum(weights) as real * (H(|weights|) - 1.0)
  {
    hide Sum, Credits;
    LowerBound(weights, t);
    HarmonicBound(weights, t, {i});
    SumOnSplit(Credits(weights, t), {i}, i);
    assert {i} - {i} == {} && H(1) == 1.0;
  }

  /** After any number of calls no peer is a full pick ahead of its fair share
      or more than H(n) - 1 picks behind it. */
  lemma Smoothness(weights: seq<int>, t: nat, i: nat)
    requires Weighted(weights) && i < |weights|
    ensures var fair := (t * weights[i]) as real / Sum(weights) as real;
      fair - (H(|weights|) - 1.0) <= Count(weights, i, t) as real < fair + 1.0
  {
    hide Sum, Credits, Count, H;
    ClosedForm(weights, i, t);
    CreditRange(weights, t, i);
    SmoothnessArithmetic(Sum(weights), t * weights[i], Count(weights, i, t), H(|weights|) - 1.0);
  }

  lemma SmoothnessArithmetic(total: int, earned: int, count: int, slack: real)
    requires total > 0 && -total < earned - total * count
    requires (earned - total * count) as real <= total as real * slack
    ensures earned as real / total as real - slack <= count as real < earned as real / total as real + 1.0
  {
    var w, fair := total as real, earned as real / total as real;
    assert w * fair == earned as real;
    assert (total * count) as real == w * count as real;
    Unscale(w, fair - slack, count as real);
    if count as real >= fair + 1.0 {
      Scale(w, fair + 1.0, count as real);
      assert false;
    }
  }

  lemma PrefixSumAtMost(weights: seq<int>, k: nat)
    requires NonNegative(weights) && k <= |weights|
    ensures 0 <= Sum(weights[..k]) <= Sum(weights)
    decreases |weights| - k
  {
    SumOnAtMostSum(weights[..k], {});
    if k == |weights| {
      assert weights[..k] == weights;
    } else {
      SumOfPrefix(weights, k);
      PrefixSumAtMost(weights, k + 1);
    }
  }

  lemma WeightAtMostTotal(weights: seq<int>, i: nat)
    requires NonNegative(weights) && i < |weights|
    ensures 0 <= weights[i] <= Sum(weights)
  {
    SumOnAtMostSum(weights, {i});
    SumOnSplit(weights, {i}, i);
    assert {i} - {i} == {};
  }
}
