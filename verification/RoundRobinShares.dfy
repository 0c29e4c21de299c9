/** Shares: what a run of calls gives to every peer. */
module RoundRobinShares {
  import opened RoundRobinSpec

  ghost predicate Weighted(weights: seq<int>) {
    weights != [] && NonNegative(weights) && Sum(weights) > 0
  }

  lemma ClosedFormArithmetic(t: int, weight: int, total: int, count: int)
    ensures (t - 1) * weight - total * count + weight == t * weight - total * count
    ensures (t - 1) * weight - total * count + weight - total == t * weight - total * (count + 1)
  {
  }

  lemma CountAfterCall(weights: seq<int>, i: nat, t: nat)
    requires weights != []
    ensures Count(weights, i, 0) == 0
    ensures Count(weights, i, t + 1) == Count(weights, i, t) + if Pick(weights, t) == i then 1 else 0
  {
    hide Pick;
    assert Picks(weights, t + 1) == Picks(weights, t) + [Pick(weights, t)];
  }

  lemma StepAt(weights: seq<int>, credits: seq<int>, i: nat)
    requires i < |weights| == |credits|
    ensures Step(weights, credits)[i]
        == credits[i] + weights[i] - if FirstMax(Added(credits, weights)) == i then Sum(weights) else 0
  {
  }

  /** A credit is what the peer has earned minus what it has been paid. */
  lemma {:induction false} ClosedForm(weights: seq<int>, i: nat, t: nat)
    requires i < |weights|
    ensures Credits(weights, t)[i] == t * weights[i] - Sum(weights) * Count(weights, i, t)
  {
    hide FirstMax, Added, Step, Count;
    CountAfterCall(weights, i, if t == 0 then 0 else t - 1);
    if t > 0 {
      ClosedForm(weights, i, t - 1);
      ClosedFormArithmetic(t, weights[i], Sum(weights), Count(weights, i, t - 1));
      StepAt(weights, Credits(weights, t - 1), i);
    }
  }

  /** Every call hands out exactly what it takes back. */
  lemma {:induction false} CreditsSumToZero(weights: seq<int>, t: nat)
    requires weights != []
    ensures Sum(Credits(weights, t)) == 0
    ensures Sum(Offered(weights, t)) == Sum(weights)
  {
    hide FirstMax, Sum;
    if t == 0 {
      SumBounds(Credits(weights, 0), 0, 0);
    } else {
      CreditsSumToZero(weights, t - 1);
      var added := Offered(weights, t - 1);
      var best := FirstMax(added);
      SumUpdate(added, best, added[best] - Sum(weights));
    }
    SumAdded(Credits(weights, t), weights);
  }

  /** The winner's credit is positive when it is chosen. */
  lemma WinnerIsOwed(weights: seq<int>, t: nat)
    requires Weighted(weights)
    ensures Offered(weights, t)[Pick(weights, t)] > 0
  {
    CreditsSumToZero(weights, t);
    var added := Offered(weights, t);
    if added[FirstMax(added)] <= 0 {
      SumBounds(added, Min(added), 0);
    }
  }

  ghost function Min(s: seq<int>): (m: int)
    ensures forall i | 0 <= i < |s| :: m <= s[i]
  {
    if s == [] then 0 else
      var m := Min(s[..|s| - 1]);
      if s[|s| - 1] < m then s[|s| - 1] else m
  }

  /** No peer is ever a full round in debt. */
  lemma {:induction false} LowerBound(weights: seq<int>, t: nat)
    requires Weighted(weights)
    ensures forall i | 0 <= i < |weights| :: Credits(weights, t)[i] > -Sum(weights)
  {
    if t > 0 {
      LowerBound(weights, t - 1);
      WinnerIsOwed(weights, t - 1);
    }
  }

  ghost predicate AtRest(weights: seq<int>, t: nat)
    requires weights != []
  {
    forall i | 0 <= i < |weights| :: Credits(weights, t)[i] == 0
  }

  /** Every peer is owed a whole number of picks after `t` calls. */
  ghost predicate Divides(weights: seq<int>, t: nat)
    requires Weighted(weights)
  {
    forall i | 0 <= i < |weights| :: (t * weights[i]) % Sum(weights) == 0
  }

  /** All credits are back to zero exactly when every fair share is whole. */
  lemma RestsExactlyWhenSharesAreWhole(weights: seq<int>, t: nat)
    requires Weighted(weights)
    ensures AtRest(weights, t) <==> Divides(weights, t)
  {
    hide Credits, Count, Sum;
    var total, credits := Sum(weights), Credits(weights, t);
    forall i | 0 <= i < |weights|
      ensures credits[i] % total == (t * weights[i]) % total
      ensures (t * weights[i]) % total == 0 ==> credits[i] >= 0
    {
      ClosedForm(weights, i, t);
      LowerBound(weights, t);
      ModOfDifference(t * weights[i], total, Count(weights, i, t));
      if (t * weights[i]) % total == 0 {
        MultipleAbove(credits[i], total);
      }
    }
    if Divides(weights, t) {
      CreditsSumToZero(weights, t);
      ZeroSum(credits);
    }
  }

  lemma ModOfDifference(a: int, m: int, k: int)
    requires m > 0
    ensures (a - m * k) % m == a % m
  {
    var q, r := a / m, a % m;
    assert a - m * k == m * (q - k) + r;
    DivModUnique(a - m * k, m, q - k, r);
  }

  lemma DivModUnique(a: int, m: int, q: int, r: int)
    requires m > 0 && 0 <= r < m && a == m * q + r
    ensures a / m == q && a % m == r
  {
    var d := a / m - q;
    assert m * d == r - a % m;
    assert d >= 1 ==> m * d >= m;
    assert d <= -1 ==> m * d <= -m;
  }

  lemma MultipleAbove(c: int, m: int)
    requires m > 0 && c > -m && c % m == 0
    ensures c >= 0
  {
    if c < 0 {
      DivModUnique(c, m, -1, c + m);
    }
  }

  lemma RestsAfterOneRound(weights: seq<int>)
    requires Weighted(weights)
    ensures AtRest(weights, Sum(weights))
  {
    forall i | 0 <= i < |weights|
      ensures (Sum(weights) * weights[i]) % Sum(weights) == 0
    {
      DivModUnique(Sum(weights) * weights[i], Sum(weights), weights[i], 0);
    }
    RestsExactlyWhenSharesAreWhole(weights, Sum(weights));
  }

  /** From any instant of rest on, the run repeats itself. */
  lemma {:induction false} RunRepeats(weights: seq<int>, period: nat, t: nat)
    requires weights != [] && AtRest(weights, period)
    ensures Credits(weights, period + t) == Credits(weights, t)
    ensures Pick(weights, period + t) == Pick(weights, t)
  {
    hide FirstMax, Added, Step;
    if t == 0 {
      assert Credits(weights, period) == Credits(weights, 0);
    } else {
      RunRepeats(weights, period, t - 1);
    }
  }

  /** The peers picked by the `length` calls that follow call `t`. */
  function Window(weights: seq<int>, t: nat, length: nat): (picks: seq<nat>)
    requires weights != []
    ensures |picks| == length
  {
    Picks(weights, t + length)[t..]
  }

  lemma {:induction false} PicksExtend(weights: seq<int>, t: nat, length: nat)
    requires weights != []
    ensures Picks(weights, t + length)[..t] == Picks(weights, t)
  {
    hide Pick;
    if length > 0 {
      PicksExtend(weights, t, length - 1);
      assert Picks(weights, t + length)[..t] == Picks(weights, t + (length - 1))[..t];
    }
  }

  lemma WindowCounts(weights: seq<int>, t: nat, length: nat, i: nat)
    requires weights != []
    ensures Count(weights, i, t + length) == Count(weights, i, t) + Times(Window(weights, t, length), i)
  {
    hide Pick, Picks;
    var picks := Picks(weights, t + length);
    PicksExtend(weights, t, length);
    assert picks == picks[..t] + picks[t..];
  }

  /** Any window as long as a period, aligned or not, gives every peer its exact share. */
  lemma PeriodGivesExactShares(weights: seq<int>, period: nat, t: nat, i: nat)
    requires Weighted(weights) && AtRest(weights, period) && i < |weights|
    ensures Sum(weights) * Times(Window(weights, t, period), i) == period * weights[i]
  {
    hide *;
    RunRepeats(weights, period, t);
    ClosedForm(weights, i, t);
    ClosedForm(weights, i, t + period);
    WindowCounts(weights, t, period, i);
    WindowArithmetic(Sum(weights), Count(weights, i, t + period), Count(weights, i, t), period, t, weights[i]);
  }

  lemma WindowArithmetic(total: int, later: int, earlier: int, period: int, t: int, weight: int)
    requires (t + period) * weight - total * later == t * weight - total * earlier
    ensures total * (later - earlier) == period * weight
  {
  }

  /** Any `Sum(weights)` consecutive calls pick peer `i` exactly `weights[i]`
      times: never when its weight is zero, never not at all otherwise. */
  lemma RoundGivesExactShares(weights: seq<int>, t: nat, i: nat)
    requires Weighted(weights) && i < |weights|
    ensures Times(Window(weights, t, Sum(weights)), i) == weights[i]
    ensures weights[i] > 0 <==> i in Window(weights, t, Sum(weights))
  {
    var total := Sum(weights);
    var window := Window(weights, t, total);
    RestsAfterOneRound(weights);
    PeriodGivesExactShares(weights, total, t, i);
    CancelFactor(total, Times(window, i), weights[i]);
  }

  lemma CancelFactor(m: int, a: int, b: int)
    requires m > 0 && m * a == m * b
    ensures a == b
  {
    DivModUnique(m * a, m, a, 0);
    DivModUnique(m * b, m, b, 0);
  }

  /** With no weight at all the credits never move and token 0 answers every call. */
  lemma {:induction false} UnweightedAlwaysPicksFirst(weights: seq<int>, t: nat)
    requires weights != [] && forall i | 0 <= i < |weights| :: weights[i] == 0
    ensures AtRest(weights, t) && Pick(weights, t) == 0
  {
    SumBounds(weights, 0, 0);
    if t > 0 {
      UnweightedAlwaysPicksFirst(weights, t - 1);
    }
    assert Offered(weights, t)[Pick(weights, t)] == Offered(weights, t)[0];
  }
}
