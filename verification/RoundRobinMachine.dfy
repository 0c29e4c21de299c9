/** The balancer's own arithmetic: `i16` credits that wrap, `u8` weights; when it
    answers as the unbounded integers do, and when it overflows at all. */
module RoundRobinMachine {
  import opened Wrappers
  import opened RoundRobinSpec
  import opened RoundRobinShares
  import opened RoundRobinBounds

  datatype Node = Node(cw: int, ew: u8, weight: u8, token: u8)

  /** Wrap-around to the sixteen-bit signed range. */
  function I16(x: int): int {
    (x + 0x8000) % 0x10000 - 0x8000
  }

  lemma WrapAbsorbs(a: int, b: int)
    ensures I16(0) == 0 && I16(I16(a) + b) == I16(a + b) && I16(I16(a) - I16(b)) == I16(a - b)
  {
  }

  predicate FitsI16(x: int) {
    -0x8000 <= x < 0x8000
  }

  function Cws(nodes: seq<Node>): seq<int> {
    seq(|nodes|, i requires 0 <= i < |nodes| => nodes[i].cw)
  }

  function Ews(nodes: seq<Node>): seq<int> {
    seq(|nodes|, i requires 0 <= i < |nodes| => nodes[i].ew)
  }

  /** A node after the visit of the loop: credited with its effective weight,
      which then recovers by one if it is below the configured weight. */
  function Visited(node: Node): (visited: Node)
    ensures visited.weight == node.weight && visited.token == node.token
  {
    node.(cw := I16(node.cw + node.ew), ew := if node.ew < node.weight then node.ew + 1 else node.ew)
  }

  function AllVisited(nodes: seq<Node>): seq<Node> {
    seq(|nodes|, i requires 0 <= i < |nodes| => Visited(nodes[i]))
  }

  function MachineBest(nodes: seq<Node>): (best: nat)
    requires nodes != []
    ensures best < |nodes|
  {
    FirstMax(Cws(AllVisited(nodes)))
  }

  lemma MachineBestDef(nodes: seq<Node>)
    requires nodes != []
    ensures MachineBest(nodes) == FirstMax(Cws(AllVisited(nodes)))
  {
  }

  function MachineStep(nodes: seq<Node>): seq<Node>
    requires nodes != []
  {
    var visited := AllVisited(nodes);
    var best := MachineBest(nodes);
    visited[best := visited[best].(cw := I16(visited[best].cw - I16(Sum(Ews(nodes)))))]
  }

  function Fresh(weights: seq<u8>): seq<Node>
    requires |weights| < 0x100
  {
    seq(|weights|, i requires 0 <= i < |weights| => Node(0, weights[i], weights[i], i))
  }

  /** The node list after `t` calls on a fresh balancer. */
  function MachineRun(weights: seq<u8>, t: nat): (nodes: seq<Node>)
    requires 0 < |weights| < 0x100
    ensures |nodes| == |weights|
  {
    if t == 0 then Fresh(weights) else MachineStep(MachineRun(weights, t - 1))
  }

  /** On every run the effective weight stays at the configured one, so its
      recovery never fires, and node i keeps token i. */
  lemma {:induction false} EffectiveWeightIsConstant(weights: seq<u8>, t: nat, i: nat)
    requires i < |weights| < 0x100
    ensures var node := MachineRun(weights, t)[i];
      node.ew == node.weight == weights[i] && node.token == i
  {
    if t > 0 {
      EffectiveWeightIsConstant(weights, t - 1, i);
    }
  }

  // ---- the answers ----

  /** All credits that call `t` compares are `i16` values. */
  predicate OfferedFits(weights: seq<int>, t: nat)
    requires weights != []
  {
    forall i | 0 <= i < |weights| :: FitsI16(Offered(weights, t)[i])
  }

  /** The node list that holds the given credits, wrapped. */
  function Wrapped(weights: seq<u8>, credits: seq<int>): seq<Node>
    requires |credits| == |weights| < 0x100
  {
    seq(|weights|, i requires 0 <= i < |weights| => Node(I16(credits[i]), weights[i], weights[i], i))
  }

  predicate AnswersIdeally(weights: seq<u8>, t: nat)
    requires 0 < |weights| < 0x100
  {
    MachineBest(MachineRun(weights, t)) == Pick(weights, t)
  }

  /** The credits compared are the ideal ones, wrapped. If the choice is the ideal
      one the step is the ideal one, wrapped: the wrapped total does no harm. */
  lemma StepOfWrapped(weights: seq<u8>, credits: seq<int>)
    requires 0 < |weights| < 0x100 && |credits| == |weights|
    ensures var nodes, added := Wrapped(weights, credits), Added(credits, weights);
      && (forall i | 0 <= i < |weights| :: Cws(AllVisited(nodes))[i] == I16(added[i]))
      && (MachineBest(nodes) == FirstMax(added) ==> MachineStep(nodes) == Wrapped(weights, Step(weights, credits)))
  {
    hide FirstMax, Sum, I16;
    var nodes, added, total := Wrapped(weights, credits), Added(credits, weights), Sum(weights);
    assert Ews(nodes) == weights;
    forall i | 0 <= i < |weights|
      ensures Visited(nodes[i]) == Node(I16(added[i]), weights[i], weights[i], i)
    {
      WrapAbsorbs(credits[i], weights[i]);
    }
    var best := FirstMax(added);
    WrapAbsorbs(added[best], total);
  }

  /** As long as all answers were ideal, the credits are the ideal ones, wrapped. */
  lemma {:induction false} IdealAnswersKeepCredits(weights: seq<u8>, t: nat)
    requires 0 < |weights| < 0x100 && forall k | 0 <= k < t :: AnswersIdeally(weights, k)
    ensures MachineRun(weights, t) == Wrapped(weights, Credits(weights, t))
  {
    hide FirstMax, Step, MachineStep, MachineBest, Sum;
    if t > 0 {
      IdealAnswersKeepCredits(weights, t - 1);
      assert AnswersIdeally(weights, t - 1);
      StepOfWrapped(weights, Credits(weights, t - 1));
    }
  }

  /** As long as the credits compared so far were in range, the node list is the
      ideal one, wrapped, and the next answer is ideal exactly if the credits it
      compares are in range too. */
  lemma {:induction false} MachineRefinesIdeal(weights: seq<u8>, t: nat)
    requires 0 < |weights| < 0x100 && forall k | 0 <= k < t :: OfferedFits(weights, k)
    ensures MachineRun(weights, t) == Wrapped(weights, Credits(weights, t))
    ensures AnswersIdeally(weights, t) <==> OfferedFits(weights, t)
  {
    hide OfferedFits, AnswersIdeally;
    forall k | 0 <= k < t
      ensures AnswersIdeally(weights, k)
    {
      MachineRefinesIdeal(weights, k);
    }
    IdealAnswersKeepCredits(weights, t);
    if OfferedFits(weights, t) {
      FitMeansIdealAnswer(weights, t);
    } else {
      FirstMisfitAnswersWrong(weights, t);
    }
  }

  lemma FitMeansIdealAnswer(weights: seq<u8>, t: nat)
    requires 0 < |weights| < 0x100 && OfferedFits(weights, t)
    requires MachineRun(weights, t) == Wrapped(weights, Credits(weights, t))
    ensures AnswersIdeally(weights, t)
  {
    hide FirstMax, Sum, Credits, MachineRun, Step, MachineStep, I16, Wrapped;
    var offered := Offered(weights, t);
    StepOfWrapped(weights, Credits(weights, t));
    forall i | 0 <= i < |weights|
      ensures I16(offered[i]) == offered[i]
    {
      WrapKeeps(offered[i]);
    }
    assert Cws(AllVisited(MachineRun(weights, t))) == offered;
  }

  lemma WrapKeeps(x: int)
    requires FitsI16(x)
    ensures I16(x) == x
  {
  }

  /** The first call that compares a credit out of range prefers the peer paid by
      the call before it, whose wrapped credit is then above the winner's. */
  lemma FirstMisfitAnswersWrong(weights: seq<u8>, t: nat)
    requires 0 < |weights| < 0x100 && !OfferedFits(weights, t)
    requires forall k | 0 <= k < t :: OfferedFits(weights, k)
    requires MachineRun(weights, t) == Wrapped(weights, Credits(weights, t))
    ensures !AnswersIdeally(weights, t)
  {
    hide FirstMax, Sum, Credits, Step, MachineRun;
    MisfitIsWeightedAndLate(weights, t);
    var offered, paid, best := Offered(weights, t), Pick(weights, t - 1), Pick(weights, t);
    var misfit :| 0 <= misfit < |weights| && !FitsI16(offered[misfit]);
    LowerBound(weights, t);
    WinnerIsOwed(weights, t);
    TotalIsSmall(weights);
    WeightAtMostTotal(weights, paid);
    assert OfferedFits(weights, t - 1);
    OfferMoves(weights, t - 1, misfit);
    OfferMoves(weights, t - 1, best);
    OfferMoves(weights, t - 1, paid);
    PaidBeatsWinner(Sum(weights), offered[misfit], offered[best], offered[paid], best == paid, misfit == paid);
    StepOfWrapped(weights, Credits(weights, t));
  }

  lemma TotalIsSmall(weights: seq<u8>)
    requires |weights| < 0x100
    ensures Sum(weights) <= 65025
  {
    SumBounds(weights, 0, 0xff);
  }

  /** One credit out of range puts the wrapped credit of the peer just paid above
      the wrapped credit of the ideal winner: either the paid peer fell below the
      range itself, or the winner rose above it. */
  lemma PaidBeatsWinner(total: int, misfit: int, best: int, paid: int, again: bool, low: bool)
    requires 0 < total <= 65025 && best > 0 && misfit <= best && paid <= best && !FitsI16(misfit)
    requires -total < paid < 0x8000 && (again ==> best == paid)
    requires !again ==> best < 0x8000 + 0xff && best - paid <= total + 0xff
    requires if low then misfit == paid else misfit >= -0x8000
    ensures I16(paid) > I16(best)
  {
  }

  lemma MisfitIsWeightedAndLate(weights: seq<u8>, t: nat)
    requires 0 < |weights| < 0x100 && !OfferedFits(weights, t)
    ensures t > 0 && Weighted(weights)
  {
    SumOnAtMostSum(weights, {});
    if Sum(weights) == 0 {
      ZeroSum(weights);
      UnweightedAlwaysPicksFirst(weights, t);
    }
  }

  /** From one call to the next an offer grows by the weight, except that the
      peer just picked has paid the total. */
  lemma OfferMoves(weights: seq<int>, t: nat, i: nat)
    requires i < |weights|
    ensures Offered(weights, t + 1)[i]
      == Offered(weights, t)[i] + weights[i] - if i == Pick(weights, t) then Sum(weights) else 0
    ensures Offered(weights, t)[i] <= Offered(weights, t)[Pick(weights, t)]
  {
    hide Sum;
  }

  /** Up to any call all answers are ideal if and only if all credits compared are
      in range. */
  lemma AnswersAreIdealWhileOffersFit(weights: seq<u8>, t: nat)
    requires 0 < |weights| < 0x100
    ensures (forall k | 0 <= k <= t :: AnswersIdeally(weights, k))
       <==> (forall k | 0 <= k <= t :: OfferedFits(weights, k))
  {
    hide OfferedFits, AnswersIdeally;
    if forall k | 0 <= k <= t :: OfferedFits(weights, k) {
      forall k | 0 <= k <= t
        ensures AnswersIdeally(weights, k)
      {
        MachineRefinesIdeal(weights, k);
      }
    } else {
      var k := FirstMisfit(weights, t);
      MachineRefinesIdeal(weights, k);
    }
  }

  lemma {:induction false} FirstMisfit(weights: seq<u8>, t: nat) returns (k: nat)
    requires weights != [] && exists k | 0 <= k <= t :: !OfferedFits(weights, k)
    ensures k <= t && !OfferedFits(weights, k) && forall j | 0 <= j < k :: OfferedFits(weights, j)
  {
    hide OfferedFits;
    if t > 0 && exists j | 0 <= j <= t - 1 :: !OfferedFits(weights, j) {
      k := FirstMisfit(weights, t - 1);
    } else {
      k := t;
    }
  }

  /** All answers of an endless run are ideal if and only if the credits compared
      by its first `Sum(weights)` calls are in range. */
  lemma AnswersForever(weights: seq<u8>)
    requires 0 < |weights| < 0x100
    ensures (forall t: nat :: AnswersIdeally(weights, t))
       <==> (forall t: nat | t < Sum(weights) :: OfferedFits(weights, t))
  {
    hide OfferedFits, AnswersIdeally, Sum;
    if forall t: nat | t < Sum(weights) :: OfferedFits(weights, t) {
      forall t: nat
        ensures AnswersIdeally(weights, t)
      {
        forall k | 0 <= k <= t
          ensures OfferedFits(weights, k)
        {
          FitsByRound(weights, k);
        }
        MachineRefinesIdeal(weights, t);
      }
    }
    if forall t: nat :: AnswersIdeally(weights, t) {
      forall t: nat
        ensures OfferedFits(weights, t)
      {
        AnswersAreIdealWhileOffersFit(weights, t);
      }
    }
  }

  lemma {:induction false} FitsByRound(weights: seq<u8>, t: nat)
    requires 0 < |weights| < 0x100
    requires forall k: nat | k < Sum(weights) :: OfferedFits(weights, k)
    ensures OfferedFits(weights, t)
  {
    hide Sum, Credits;
    SumOnAtMostSum(weights, {});
    if Sum(weights) == 0 {
      if !OfferedFits(weights, t) {
        MisfitIsWeightedAndLate(weights, t);
      }
    } else if t >= Sum(weights) {
      FitsByRound(weights, t - Sum(weights));
      RestsAfterOneRound(weights);
      RunRepeats(weights, Sum(weights), t - Sum(weights));
    }
  }

  /** The first call always answers ideally. The second does if and only if the
      total weight is at most 32768 plus twice the largest weight; otherwise it
      answers with the same peer again. */
  lemma SecondAnswer(weights: seq<u8>)
    requires 0 < |weights| < 0x100
    ensures AnswersIdeally(weights, 0)
    ensures var first := Pick(weights, 0);
      var largest: int := weights[first];
      && (forall i | 0 <= i < |weights| :: weights[i] <= largest)
      && (AnswersIdeally(weights, 1) <==> Sum(weights) <= 0x8000 + 2 * largest)
      && (!AnswersIdeally(weights, 1) ==> MachineBest(MachineRun(weights, 1)) == first)
  {
    hide Sum, FirstMax, Step, AnswersIdeally, MachineRun, MachineBest, Wrapped;
    assert Offered(weights, 0) == weights;
    assert OfferedFits(weights, 0);
    MachineRefinesIdeal(weights, 0);
    MachineRefinesIdeal(weights, 1);
    SecondOffers(weights);
    if !OfferedFits(weights, 1) {
      SecondRepeatsFirst(weights);
    }
  }

  // ---- peers of equal weight ----

  predicate Equal(weights: seq<u8>, weight: u8) {
    forall i | 0 <= i < |weights| :: weights[i] == weight
  }

  /** Peers of equal weight take turns, so all answers of an endless run are ideal if
      and only if their number times the weight is at most 32767. */
  lemma EqualPeersForever(weights: seq<u8>, weight: u8)
    requires 0 < |weights| < 0x100 && Equal(weights, weight)
    ensures (forall t: nat :: AnswersIdeally(weights, t)) <==> |weights| * weight <= 0x7fff
  {
    hide OfferedFits, AnswersIdeally, Sum;
    var n := |weights|;
    if |weights| * weight <= 0x7fff {
      forall t: nat
        ensures AnswersIdeally(weights, t)
      {
        forall k | 0 <= k <= t
          ensures OfferedFits(weights, k)
        {
          EqualOffersFit(weights, weight, k);
        }
        MachineRefinesIdeal(weights, t);
      }
    }
    if forall t: nat :: AnswersIdeally(weights, t) {
      EqualPeersFirstRound(weights, weight, n - 1);
    }
  }

  /** Within the first round the answers up to call `t` are ideal if and only if its
      winner's credit fits and the total is at most 32768 plus two weights; the
      first call is always right. */
  lemma EqualPeersFirstRound(weights: seq<u8>, weight: u8, t: nat)
    requires t < |weights| < 0x100 && Equal(weights, weight)
    ensures (forall k | 0 <= k <= t :: AnswersIdeally(weights, k))
       <==> t == 0 || ((t + 1) * weight <= 0x7fff && |weights| * weight <= 0x8000 + 2 * weight)
  {
    hide OfferedFits, AnswersIdeally, EqualFits;
    AnswersAreIdealWhileOffersFit(weights, t);
    forall k | 0 <= k <= t
      ensures OfferedFits(weights, k) <==> EqualFits(|weights|, weight, k)
      ensures EqualFits(|weights|, weight, t) && (t > 0 ==> EqualFits(|weights|, weight, 1))
        ==> EqualFits(|weights|, weight, k)
    {
      EqualOffers(weights, weight, k);
      TightestFits(|weights|, weight, k, t);
    }
    BothFit(|weights|, weight, t);
  }

  /** The winner's credit is largest at the last call, the other one least at call 1. */
  lemma TightestFits(n: nat, weight: nat, k: nat, t: nat)
    requires k <= t
    ensures EqualFits(n, weight, t) && (t > 0 ==> EqualFits(n, weight, 1)) ==> EqualFits(n, weight, k)
  {
    Ordered(k + 1, t + 1, weight);
    Ordered(2, k + 1, weight);
  }

  lemma BothFit(n: nat, weight: u8, t: nat)
    ensures EqualFits(n, weight, t) && (t > 0 ==> EqualFits(n, weight, 1))
       <==> t == 0 || ((t + 1) * weight <= 0x7fff && n * weight <= 0x8000 + 2 * weight)
  {
    Ordered(2, t + 1, weight);
  }

  /** The two credits that call `k` of the first round compares. */
  predicate EqualFits(n: nat, weight: nat, k: nat) {
    (k + 1) * weight <= 0x7fff && (k > 0 ==> (k + 1) * weight - n * weight >= -0x8000)
  }

  lemma Ordered(a: nat, b: nat, weight: nat)
    ensures a <= b ==> a * weight <= b * weight
  {
  }

  lemma EqualOffers(weights: seq<u8>, weight: u8, t: nat)
    requires t < |weights| && Equal(weights, weight)
    ensures OfferedFits(weights, t) <==> EqualFits(|weights|, weight, t)
  {
    hide Credits;
    EqualCredits(weights, weight, t);
    forall i | 0 <= i < |weights|
      ensures Offered(weights, t)[i] == (t + 1) * weight - if i < t then |weights| * weight else 0
    {
    }
    assert Offered(weights, t)[t] == (t + 1) * weight;
    assert t > 0 ==> Offered(weights, t)[0] == (t + 1) * weight - |weights| * weight;
    Ordered(0, t + 1, weight);
    Ordered(t + 1, |weights|, weight);
  }

  /** Each of the first n calls credits every peer and lets the next one pay. */
  lemma {:induction false} EqualCredits(weights: seq<u8>, weight: u8, t: nat)
    requires t <= |weights| && weights != [] && Equal(weights, weight)
    ensures forall i | 0 <= i < |weights| ::
      Credits(weights, t)[i] == t * weight - if i < t then |weights| * weight else 0
  {
    if t > 0 {
      var before := t - 1;
      EqualCredits(weights, weight, before);
      SumOfEqual(weights, weight);
      hide Credits, Sum;
      assert before * weight + weight == t * weight;
      forall i | 0 <= i < |weights|
        ensures Offered(weights, before)[i] == t * weight - if i < before then |weights| * weight else 0
      {
      }
      if weight > 0 {
        NextInTurn(weights, weight, before);
      }
      CreditsStep(weights, before);
    }
  }

  lemma CreditsStep(weights: seq<int>, t: nat)
    requires weights != []
    ensures forall i | 0 <= i < |weights| ::
      Credits(weights, t + 1)[i] == Offered(weights, t)[i] - if i == Pick(weights, t) then Sum(weights) else 0
  {
    hide Sum, FirstMax;
  }

  /** The lowest index that has not paid yet, unless all weights are zero. */
  lemma NextInTurn(weights: seq<u8>, weight: u8, t: nat)
    requires t < |weights| && 0 < weight
    requires forall i | 0 <= i < |weights| ::
      Offered(weights, t)[i] == (t + 1) * weight - if i < t then |weights| * weight else 0
    ensures Pick(weights, t) == t
  {
    hide Credits, FirstMax;
    Ordered(1, |weights|, weight);
    var offered, best := Offered(weights, t), Pick(weights, t);
    assert offered[t] <= offered[best];
  }

  /** After n calls the credits rest, so the first round decides. */
  lemma {:induction false} EqualOffersFit(weights: seq<u8>, weight: u8, t: nat)
    requires 0 < |weights| < 0x100 && Equal(weights, weight) && |weights| * weight <= 0x7fff
    ensures OfferedFits(weights, t)
  {
    hide Credits, Sum;
    var n := |weights|;
    if t < n {
      hide OfferedFits;
      EqualOffers(weights, weight, t);
      Ordered(0, t + 1, weight);
      Ordered(t + 1, n, weight);
    } else {
      EqualPeersRest(weights, weight);
      EqualOffersFit(weights, weight, t - n);
      RunRepeats(weights, n, t - n);
    }
  }

  lemma EqualPeersRest(weights: seq<u8>, weight: u8)
    requires weights != [] && Equal(weights, weight)
    ensures AtRest(weights, |weights|)
  {
    hide Credits;
    EqualCredits(weights, weight, |weights|);
  }

  function Peers(n: nat, weight: u8): seq<u8> {
    seq(n, i => weight)
  }

  /** 129 peers of weight 255 answer two calls rightly and a later one wrongly; with
      131 peers already the second answer is wrong. */
  lemma EqualPeersGoWrong()
    ensures AnswersIdeally(Peers(129, 255), 1)
    ensures exists t: nat :: t < 129 && !AnswersIdeally(Peers(129, 255), t)
    ensures !AnswersIdeally(Peers(131, 255), 1)
  {
    hide AnswersIdeally;
    var some, more := Peers(129, 255), Peers(131, 255);
    EqualPeersFirstRound(some, 255, 1);
    EqualPeersFirstRound(some, 255, 128);
    EqualPeersFirstRound(more, 255, 1);
    EqualPeersFirstRound(more, 255, 0);
  }

  lemma {:induction false} SumOfEqual(weights: seq<u8>, weight: u8)
    requires forall i | 0 <= i < |weights| :: weights[i] == weight
    ensures Sum(weights) == |weights| * weight
  {
    if weights != [] {
      SumOfEqual(weights[..|weights| - 1], weight);
    }
  }

  lemma SecondRepeatsFirst(weights: seq<u8>)
    requires 0 < |weights| < 0x100 && !OfferedFits(weights, 1)
    requires MachineRun(weights, 1) == Wrapped(weights, Credits(weights, 1))
    ensures MachineBest(MachineRun(weights, 1)) == Pick(weights, 0)
  {
    hide Sum, FirstMax, Step, MachineRun, Credits, OfferedFits, I16;
    var first, offered := Pick(weights, 0), Offered(weights, 1);
    SecondOffers(weights);
    StepOfWrapped(weights, Credits(weights, 1));
    forall i | 0 <= i < |weights| && i != first
      ensures I16(offered[i]) < I16(offered[first])
    {
      WrappedBelow(offered[i], offered[first]);
    }
  }

  lemma WrappedBelow(small: int, under: int)
    requires 0 <= small <= 510 && -0x10000 + 511 <= under < -0x8000
    ensures I16(small) < I16(under)
  {
  }

  /** The second call compares twice the weights, less the total for the first
      peer picked, and the latter alone may be out of range. */
  lemma SecondOffers(weights: seq<u8>)
    requires 0 < |weights| < 0x100
    ensures var first := Pick(weights, 0);
      var largest: int := weights[first];
      && Sum(weights) <= 65025
      && (forall i | 0 <= i < |weights| :: 0 <= weights[i] <= largest)
      && (forall i | 0 <= i < |weights| && i != first :: 0 <= Offered(weights, 1)[i] <= 2 * largest)
      && Offered(weights, 1)[first] == 2 * largest - Sum(weights) <= largest
      && (OfferedFits(weights, 1) <==> Sum(weights) <= 0x8000 + 2 * largest)
  {
    hide Sum, FirstMax, Step;
    var first := Pick(weights, 0);
    assert Offered(weights, 0) == weights;
    TotalIsSmall(weights);
    WeightAtMostTotal(weights, first);
    forall i | 0 <= i < |weights|
      ensures 0 <= weights[i] <= weights[first]
      ensures Offered(weights, 1)[i] == weights[i] + weights[i] - if i == first then Sum(weights) else 0
    {
      OfferMoves(weights, 0, i);
    }
  }

  // ---- overflow ----

  /** Every `i16` value call `t` computes is in range: the partial sums of `tw`,
      the credits after the add, and the winner's credit after the pay. */
  predicate CallFits(weights: seq<int>, t: nat)
    requires weights != []
  {
    && (forall k | 0 <= k <= |weights| :: FitsI16(Sum(weights[..k])))
    && OfferedFits(weights, t)
    && FitsI16(Offered(weights, t)[Pick(weights, t)] - Sum(weights))
  }

  /** The winner's credit before it pays. */
  function WinningOffer(weights: seq<int>, t: nat): int
    requires weights != []
  {
    Offered(weights, t)[Pick(weights, t)]
  }

  /** A call overflows nowhere if and only if the total weight and the winner's
      credit are at most 32767. */
  lemma CallFitsExactly(weights: seq<u8>, t: nat)
    requires weights != []
    ensures CallFits(weights, t) <==> Sum(weights) <= 0x7fff && WinningOffer(weights, t) <= 0x7fff
  {
    hide Sum, Credits, FirstMax;
    assert weights[..|weights|] == weights;
    SumOnAtMostSum(weights, {});
    forall k | 0 <= k <= |weights|
      ensures 0 <= Sum(weights[..k]) <= Sum(weights)
    {
      PrefixSumAtMost(weights, k);
    }
    if Sum(weights) == 0 {
      ZeroSum(weights);
      UnweightedAlwaysPicksFirst(weights, t);
    } else {
      LowerBound(weights, t);
      WinnerIsOwed(weights, t);
    }
  }

  /** No call of an endless run overflows if and only if the total weight is at
      most 32767 and so is the winner's credit in each of the first
      `Sum(weights)` calls. */
  lemma NeverOverflowsExactly(weights: seq<u8>)
    requires 0 < |weights| < 0x100
    ensures (forall t: nat :: CallFits(weights, t))
       <==> Sum(weights) <= 0x7fff && forall t: nat | t < Sum(weights) :: WinningOffer(weights, t) <= 0x7fff
  {
    hide CallFits, WinningOffer, Sum;
    if Sum(weights) <= 0x7fff && forall t: nat | t < Sum(weights) :: WinningOffer(weights, t) <= 0x7fff {
      forall t: nat
        ensures CallFits(weights, t)
      {
        OfferByRound(weights, t);
        CallFitsExactly(weights, t);
      }
    }
    if forall t: nat :: CallFits(weights, t) {
      forall t: nat
        ensures Sum(weights) <= 0x7fff && WinningOffer(weights, t) <= 0x7fff
      {
        CallFitsExactly(weights, t);
      }
      CallFitsExactly(weights, 0);
    }
  }

  lemma {:induction false} OfferByRound(weights: seq<u8>, t: nat)
    requires weights != []
    requires forall k: nat | k < Sum(weights) :: WinningOffer(weights, k) <= 0x7fff
    ensures WinningOffer(weights, t) <= 0x7fff
  {
    hide Sum, Credits, FirstMax;
    SumOnAtMostSum(weights, {});
    if Sum(weights) == 0 {
      ZeroSum(weights);
      UnweightedAlwaysPicksFirst(weights, t);
    } else if t >= Sum(weights) {
      OfferByRound(weights, t - Sum(weights));
      RestsAfterOneRound(weights);
      RunRepeats(weights, Sum(weights), t - Sum(weights));
    }
  }

  /** Sixteen bits are enough on every run when W * H(n) is at most 32767 ... */
  lemma NeverOverflows(weights: seq<u8>, t: nat)
    requires 0 < |weights| < 0x100
    requires Sum(weights) as real * H(|weights|) <= 32767.0
    ensures CallFits(weights, t) && AnswersIdeally(weights, t)
  {
    hide H, Sum, Credits, FirstMax, CallFits, AnswersIdeally;
    OffersBounded(weights, t);
    CallFitsExactly(weights, t);
    forall k | 0 <= k <= t
      ensures OfferedFits(weights, k)
    {
      OffersBounded(weights, k);
      CallFitsExactly(weights, k);
      CallFitsMeansOfferedFits(weights, k);
    }
    MachineRefinesIdeal(weights, t);
  }

  lemma CallFitsMeansOfferedFits(weights: seq<int>, t: nat)
    requires weights != [] && CallFits(weights, t)
    ensures OfferedFits(weights, t)
  {
  }

  lemma OffersBounded(weights: seq<u8>, t: nat)
    requires 0 < |weights| < 0x100
    requires Sum(weights) as real * H(|weights|) <= 32767.0
    ensures Sum(weights) <= 0x7fff && WinningOffer(weights, t) <= 0x7fff
  {
    hide H, Sum, Credits, FirstMax;
    var total, best := Sum(weights), Pick(weights, t);
    SumOnAtMostSum(weights, {});
    TotalArithmetic(total, H(|weights|));
    if total == 0 {
      ZeroSum(weights);
      UnweightedAlwaysPicksFirst(weights, t);
    } else {
      CreditRange(weights, t, best);
      WeightAtMostTotal(weights, best);
      OfferArithmetic(Credits(weights, t)[best], weights[best], total, H(|weights|));
    }
  }

  lemma TotalArithmetic(total: nat, h: real)
    requires h >= 1.0 && total as real * h <= 32767.0
    ensures total <= 0x7fff
  {
    Scale(total as real, 1.0, h);
    assert total as real <= 32767.0;
  }

  lemma OfferArithmetic(credit: int, weight: nat, total: nat, h: real)
    requires credit as real <= total as real * (h - 1.0) && weight <= total
    requires total as real * h <= 32767.0
    ensures credit + weight <= 0x7fff
  {
    assert total as real * (h - 1.0) == total as real * h - total as real;
    assert (credit + weight) as real <= 32767.0;
  }

  /** ... in particular when n * W is. */
  lemma NeverOverflowsCrude(weights: seq<u8>, t: nat)
    requires 0 < |weights| < 0x100 && |weights| * Sum(weights) <= 32767
    ensures CallFits(weights, t) && AnswersIdeally(weights, t)
  {
    hide Sum, CallFits, AnswersIdeally;
    SumOnAtMostSum(weights, {});
    CrudeArithmetic(Sum(weights), |weights|, H(|weights|));
    NeverOverflows(weights, t);
  }

  lemma CrudeArithmetic(total: nat, n: nat, h: real)
    requires h <= n as real && n * total <= 32767
    ensures total as real * h <= 32767.0
  {
    Scale(total as real, h, n as real);
    assert (n * total) as real == total as real * n as real;
  }
}
