/** The balancer object, updated node by node. */
module RoundRobin {
  import opened Wrappers
  import opened RoundRobinSpec
  import opened RoundRobinMachine

  class RoundRobin {
    var nodes: seq<Node>
    const total: nat

    // The call history that `nodes` is the state of.
    ghost const weights: seq<u8>
    ghost var calls: nat

    ghost predicate Valid()
      reads this
    {
      && |weights| < 0x100
      && total == |weights|
      && nodes == if total <= 1 then [] else MachineRun(weights, calls)
    }

    constructor (weights: seq<u8>)
      requires |weights| < 0x100
      ensures Valid() && this.weights == weights && calls == 0
    {
      this.weights := weights;
      calls := 0;
      total := |weights|;
      if |weights| <= 1 {
        nodes := [];
      } else {
        nodes := Fresh(weights);
      }
    }

    /** With at most one peer the answer is always token 0. Otherwise the object
        moves on by one call. As long as the credits compared by earlier calls
        were in range, it answers as the ideal run does exactly if the credits
        compared now are in range. */
    method Next() returns (token: Option<u8>)
      requires Valid()
      modifies this`nodes, this`calls
      ensures Valid() && calls == old(calls) + 1
      ensures total <= 1 ==> token == Some(0) && nodes == old(nodes)
      ensures total > 1 ==> token == Some(MachineBest(old(nodes)))
      ensures total > 1 && (forall k | 0 <= k < old(calls) :: OfferedFits(weights, k)) ==>
        (token == Some(Pick(weights, old(calls))) <==> OfferedFits(weights, old(calls)))
    {
      hide MachineStep, MachineBest, Credits, Pick, OfferedFits;
      calls := calls + 1;
      if total <= 1 {
        return Some(0);
      }
      EffectiveWeightIsConstant(weights, calls - 1, MachineBest(nodes));
      token := Advance();
      if forall k | 0 <= k < calls - 1 :: OfferedFits(weights, k) {
        MachineRefinesIdeal(weights, calls - 1);
      }
    }

    /** The visit of one node: its credit grows, and its effective weight recovers. */
    method Visit(i: nat)
      requires i < |nodes|
      modifies this`nodes
      ensures nodes == old(nodes)[i := Visited(old(nodes)[i])]
    {
      nodes := nodes[i := nodes[i].(cw := I16(nodes[i].cw + nodes[i].ew))];
      if nodes[i].ew < nodes[i].weight {
        nodes := nodes[i := nodes[i].(ew := nodes[i].ew + 1)];
      }
    }

    /** The locked section: one pass that credits every node and finds the first
        maximum, after which the winner pays the total. */
    method Advance() returns (token: Option<u8>)
      requires nodes != []
      modifies this`nodes
      ensures nodes == MachineStep(old(nodes))
      ensures token == Some(old(nodes)[MachineBest(old(nodes))].token)
    {
      WrapAbsorbs(0, 0);
      var tw := 0;
      var best: Option<nat> := None;
      hide FirstMax, I16, MachineBest, Visited;
      ghost var before, visited := nodes, AllVisited(nodes);
      ghost var cws, ews := Cws(visited), Ews(before);
      for i := 0 to |nodes|
        invariant |nodes| == |before|
        invariant tw == I16(Sum(ews[..i]))
        invariant forall k | 0 <= k < |nodes| :: nodes[k] == if k < i then visited[k] else before[k]
        invariant best == if i == 0 then None else Some(FirstMax(cws[..i]))
      {
        tw := I16(tw + nodes[i].ew);
        Visit(i);
        SumOfPrefix(ews, i);
        WrapAbsorbs(Sum(ews[..i]), ews[i]);
        if best.Some? {
          FirstMaxOfPrefix(cws, i);
          if nodes[i].cw > nodes[best.value].cw {
            best := Some(i);
          }
        } else {
          best := Some(i);
        }
      }
      assert nodes == visited && MachineBest(before) == FirstMax(cws) by { MachineBestDef(before); }
      assert ews[..|before|] == ews && cws[..|before|] == cws;
      var x := best.value;
      nodes := nodes[x := nodes[x].(cw := I16(nodes[x].cw - tw))];
      token := Some(nodes[x].token);
    }
  }
}
