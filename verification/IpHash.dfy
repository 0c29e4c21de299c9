/** The consistent-hash ring of peers. */
module IpHash {
  import opened Bytes
  import opened Wrappers
  import opened Decimals
  import opened ConsistentHash

  datatype Node = Node(hash: nat, token: nat)

  datatype IpAddr = V4(octets: seq<byte>) | V6(octets: seq<byte>)

  predicate WellFormed(ip: IpAddr) {
    |ip.octets| == if ip.V4? then 4 else 16
  }

  const MIN_REPLICA: nat := 128

  /** How many virtual nodes a unit of weight stands for: enough for the largest
      weight to get 128. A zero maximum divides to infinity, which saturates. */
  function Ratio(max: nat): (ratio: nat)
    requires max < 0x100
    ensures 1 <= ratio < 0x100
  {
    if max >= MIN_REPLICA then 1
    else if max == 0 then 0xff
    else
      RatioBounds(max);
      (MIN_REPLICA + max - 1) / max
  }

  lemma RatioBounds(max: nat)
    requires 1 <= max < MIN_REPLICA
    ensures MIN_REPLICA <= max * ((MIN_REPLICA + max - 1) / max) < MIN_REPLICA + max
    ensures 1 <= (MIN_REPLICA + max - 1) / max <= MIN_REPLICA
  {
    var q := (MIN_REPLICA + max - 1) / max;
    assert max * q + (MIN_REPLICA + max - 1) % max == MIN_REPLICA + max - 1;
    Monotone(max, MIN_REPLICA + 1, q);
  }

  /** The smallest multiplier of at least one that gives the heaviest peer its 128
      replicas; without any weight it is 255. */
  lemma RatioIsLeast(max: nat, other: nat)
    requires max < 0x100
    ensures max == 0 ==> Ratio(max) == 255
    ensures max > 0 ==> 128 <= max * Ratio(max) && (Ratio(max) == 1 || max * Ratio(max) < 128 + max)
    ensures max > 0 && other > 0 && max * other >= 128 ==> Ratio(max) <= other
  {
    if 0 < max < MIN_REPLICA {
      RatioBounds(max);
      Monotone(max, other, Ratio(max) - 1);
    }
  }

  lemma Monotone(a: nat, x: int, y: int)
    ensures x <= y ==> a * x <= a * y
    ensures a * y == a * (y + 1) - a
  {
  }

  /** The ratio that belongs to the largest of the weights. */
  ghost predicate IsRatioOf(weights: seq<u8>, ratio: nat) {
    exists max | max in weights :: (forall w | w in weights :: w <= max) && ratio == Ratio(max)
  }

  method ReplicaRatio(weights: seq<u8>) returns (ratio: nat)
    requires weights != []
    ensures IsRatioOf(weights, ratio)
  {
    var max := weights[0];
    for i := 1 to |weights|
      invariant max in weights && forall j | 0 <= j < i :: weights[j] <= max
    {
      if weights[i] > max {
        max := weights[i];
      }
    }
    ratio := Ratio(max);
  }

  /** The text "n 114514" a virtual node is hashed from. */
  function Label(n: nat): seq<byte> {
    Decimal(n) + Text(" 114514")
  }

  lemma EndChars()
    ensures CharByte(' ') == 32 && CharByte('1') == 49 && CharByte('4') == 52 && CharByte('5') == 53
  {
    hide CharByte;
    CharCode(' ', 32);
    CharCode('1', 49);
    CharCode('4', 52);
    CharCode('5', 53);
  }

  lemma LabelEnds()
    ensures Text(" 114514") == [32, 49, 49, 52, 53, 49, 52]
  {
    EndChars();
    hide Text, CharByte;
    var end := " 114514";
    TextAt(end, 0);
    TextAt(end, 1);
    TextAt(end, 2);
    TextAt(end, 3);
    TextAt(end, 4);
    TextAt(end, 5);
    TextAt(end, 6);
  }

  /** Label numbers are hashed from different texts. */
  lemma LabelsDiffer(m: nat, n: nat)
    requires m != n
    ensures Label(m) != Label(n)
  {
    hide Decimal, Text;
    DecimalDenotes(m);
    DecimalDenotes(n);
    WithoutEnd(Decimal(m), Text(" 114514"));
    WithoutEnd(Decimal(n), Text(" 114514"));
  }

  lemma WithoutEnd(s: seq<byte>, end: seq<byte>)
    ensures (s + end)[..|s + end| - |end|] == s
  {
  }

  function NodesOf(token: nat, count: nat): seq<Node> {
    if count == 0 then [] else NodesOf(token, count - 1) + [Node(Hash(Label(count - 1)), token)]
  }

  /** The nodes before sorting: for each peer its label numbers 0..=weight * ratio. */
  function AllNodes(weights: seq<u8>, ratio: nat): seq<Node> {
    if weights == [] then [] else
      var last := |weights| - 1;
      AllNodes(weights[..last], ratio) + NodesOf(last, weights[last] * ratio + 1)
  }

  function Owned(nodes: seq<Node>, token: nat): nat {
    if nodes == [] then 0 else
      Owned(nodes[..|nodes| - 1], token) + if nodes[|nodes| - 1].token == token then 1 else 0
  }

  lemma {:induction false} OwnedAppend(a: seq<Node>, b: seq<Node>, token: nat)
    ensures Owned(a + b, token) == Owned(a, token) + Owned(b, token)
  {
    if b == [] {
      assert a + b == a;
    } else {
      OwnedAppend(a, b[..|b| - 1], token);
      assert (a + b)[..|a + b| - 1] == a + b[..|b| - 1];
    }
  }

  lemma {:induction false} OwnedOfOne(owner: nat, count: nat, token: nat)
    ensures Owned(NodesOf(owner, count), token) == if owner == token then count else 0
  {
    hide Hash, Label;
    if count > 0 {
      OwnedOfOne(owner, count - 1, token);
      OwnedAppend(NodesOf(owner, count - 1), [Node(Hash(Label(count - 1)), owner)], token);
    }
  }

  lemma {:induction false} OwnedAtFirst(weights: seq<u8>, ratio: nat, token: nat)
    ensures Owned(AllNodes(weights, ratio), token) == if token < |weights| then weights[token] * ratio + 1 else 0
  {
    hide NodesOf;
    if weights != [] {
      hide Owned;
      var last := |weights| - 1;
      OwnedAtFirst(weights[..last], ratio, token);
      OwnedOfOne(last, weights[last] * ratio + 1, token);
      OwnedAppend(AllNodes(weights[..last], ratio), NodesOf(last, weights[last] * ratio + 1), token);
    }
  }

  lemma TakeOut(s: seq<Node>, i: nat, token: nat)
    requires i < |s|
    ensures multiset(s) == multiset(s[..i] + s[i + 1..]) + multiset{s[i]}
    ensures Owned(s, token) == Owned(s[..i] + s[i + 1..], token) + if s[i].token == token then 1 else 0
  {
    var left, mid, right := s[..i], [s[i]], s[i + 1..];
    assert s == left + mid + right;
    OwnedAppend(left + mid, right, token);
    OwnedAppend(left, mid, token);
    OwnedAppend(left, right, token);
    assert mid[..0] == [] && Owned(mid, token) == Owned([], token) + if s[i].token == token then 1 else 0;
  }

  /** Ownership does not depend on the order of the ring. */
  lemma {:induction false} OwnedOfPermutation(a: seq<Node>, b: seq<Node>, token: nat)
    requires multiset(a) == multiset(b)
    ensures Owned(a, token) == Owned(b, token)
  {
    if a == [] {
      assert |b| == |multiset(b)| == |multiset(a)| == 0;
    } else {
      hide Owned;
      var x := a[0];
      assert x in multiset(b);
      var i :| 0 <= i < |b| && b[i] == x;
      TakeOut(a, 0, token);
      TakeOut(b, i, token);
      assert multiset(a[..0] + a[1..]) == multiset(a) - multiset{x};
      assert multiset(b[..i] + b[i + 1..]) == multiset(b) - multiset{x};
      OwnedOfPermutation(a[..0] + a[1..], b[..i] + b[i + 1..], token);
    }
  }

  predicate Sorted(nodes: seq<Node>) {
    forall i, j | 0 <= i < j < |nodes| :: nodes[i].hash <= nodes[j].hash
  }

  method InsertByHash(sorted: seq<Node>, node: Node) returns (longer: seq<Node>)
    requires Sorted(sorted)
    ensures Sorted(longer) && multiset(longer) == multiset(sorted) + multiset{node}
  {
    var k := |sorted|;
    while k > 0 && sorted[k - 1].hash > node.hash
      invariant 0 <= k <= |sorted|
      invariant forall j | k <= j < |sorted| :: sorted[j].hash > node.hash
    {
      k := k - 1;
    }
    hide Sorted;
    InsertKeepsOrder(sorted, k, node);
    longer := sorted[..k] + [node] + sorted[k..];
  }

  lemma InsertKeepsOrder(sorted: seq<Node>, k: nat, node: Node)
    requires Sorted(sorted) && k <= |sorted|
    requires forall j | k <= j < |sorted| :: sorted[j].hash > node.hash
    requires k > 0 ==> sorted[k - 1].hash <= node.hash
    ensures var longer := sorted[..k] + [node] + sorted[k..];
      Sorted(longer) && multiset(longer) == multiset(sorted) + multiset{node}
  {
    var longer := sorted[..k] + [node] + sorted[k..];
    forall i, j | 0 <= i < j < |longer|
      ensures longer[i].hash <= longer[j].hash
    {
      assert longer[i] == if i < k then sorted[i] else if i == k then node else sorted[i - 1];
      assert longer[j] == if j < k then sorted[j] else if j == k then node else sorted[j - 1];
    }
    InsertedMultiset(sorted, k, node);
  }

  lemma InsertedMultiset(s: seq<Node>, k: nat, node: Node)
    requires k <= |s|
    ensures multiset(s[..k] + [node] + s[k..]) == multiset(s) + multiset{node}
  {
    assert s == s[..k] + s[k..];
  }

  /** Sorts by hash; the order of equal hashes is not specified. */
  method SortByHash(nodes: seq<Node>) returns (sorted: seq<Node>)
    ensures Sorted(sorted) && multiset(sorted) == multiset(nodes)
  {
    hide Sorted;
    sorted := [];
    assert Sorted([]) by { NothingIsSorted(); }
    for n := 0 to |nodes|
      invariant Sorted(sorted) && multiset(sorted) == multiset(nodes[..n])
    {
      assert nodes[..n + 1] == nodes[..n] + [nodes[n]];
      sorted := InsertByHash(sorted, nodes[n]);
    }
    assert nodes[..|nodes|] == nodes;
  }

  lemma NothingIsSorted()
    ensures Sorted([])
  {
  }

  function Middle(lo: nat, hi: nat): (mid: nat)
    requires lo < hi
    ensures lo <= mid < hi
  {
    (lo + hi) / 2
  }

  /** The place a binary search of nodes lo..hi ends at. */
  function Search(nodes: seq<Node>, hash: nat, lo: nat, hi: nat): (idx: nat)
    requires lo <= hi <= |nodes|
    ensures lo <= idx <= hi
    decreases hi - lo
  {
    if lo == hi then lo else
      var mid := Middle(lo, hi);
      if nodes[mid].hash < hash then Search(nodes, hash, mid + 1, hi)
      else if nodes[mid].hash > hash then Search(nodes, hash, lo, mid)
      else mid
  }

  /** `binary_search_by_key` on sorted nodes: an index with the key, or the place
      where it would be inserted. */
  method BinarySearch(nodes: seq<Node>, hash: nat) returns (found: bool, idx: nat)
    requires Sorted(nodes)
    ensures idx == Search(nodes, hash, 0, |nodes|)
    ensures found ==> idx < |nodes| && nodes[idx].hash == hash
    ensures !found ==> idx <= |nodes|
    ensures !found ==> forall i | 0 <= i < |nodes| :: if i < idx then nodes[i].hash < hash else nodes[i].hash > hash
  {
    hide Middle;
    var lo, hi := 0, |nodes|;
    while lo < hi
      invariant lo <= hi <= |nodes|
      invariant Search(nodes, hash, lo, hi) == Search(nodes, hash, 0, |nodes|)
      invariant forall i | 0 <= i < lo :: nodes[i].hash < hash
      invariant forall i | hi <= i < |nodes| :: nodes[i].hash > hash
    {
      var mid := Middle(lo, hi);
      if nodes[mid].hash < hash {
        lo := mid + 1;
      } else if nodes[mid].hash > hash {
        hi := mid;
      } else {
        return true, mid;
      }
    }
    return false, lo;
  }

  /** The index `next` answers with. */
  function Index(nodes: seq<Node>, hash: nat): (idx: nat)
    requires nodes != []
    ensures idx < |nodes|
  {
    var idx := Search(nodes, hash, 0, |nodes|);
    if idx < |nodes| then idx else 0
  }

  lemma {:induction false} SearchFinds(nodes: seq<Node>, hash: nat, lo: nat, hi: nat)
    requires Sorted(nodes) && lo <= hi <= |nodes|
    requires forall i | 0 <= i < lo :: nodes[i].hash < hash
    requires forall i | hi <= i < |nodes| :: nodes[i].hash > hash
    ensures var idx := Search(nodes, hash, lo, hi);
      || (idx < |nodes| && nodes[idx].hash == hash)
      || (forall i | 0 <= i < |nodes| :: if i < idx then nodes[i].hash < hash else nodes[i].hash > hash)
    decreases hi - lo
  {
    hide Middle;
    if lo < hi {
      var mid := Middle(lo, hi);
      if nodes[mid].hash < hash {
        SearchFinds(nodes, hash, mid + 1, hi);
      } else if nodes[mid].hash > hash {
        SearchFinds(nodes, hash, lo, mid);
      }
    }
  }

  /** `next` answers with a clockwise successor. */
  lemma IndexIsSuccessor(nodes: seq<Node>, hash: nat)
    requires Sorted(nodes) && nodes != []
    ensures ClockwiseSuccessor(nodes, hash, nodes[Index(nodes, hash)])
  {
    hide ClockwiseSuccessor;
    SearchFinds(nodes, hash, 0, |nodes|);
    SuccessorAt(nodes, hash, Index(nodes, hash));
  }

  /** Hashes with no node between or at them are served by one node. */
  lemma ArcHasOneIndex(nodes: seq<Node>, low: nat, high: nat)
    requires Sorted(nodes) && nodes != [] && low <= high
    requires forall node | node in nodes :: node.hash < low || high < node.hash
    ensures Index(nodes, low) == Index(nodes, high)
  {
    var i, j := Search(nodes, low, 0, |nodes|), Search(nodes, high, 0, |nodes|);
    SearchFinds(nodes, low, 0, |nodes|);
    SearchFinds(nodes, high, 0, |nodes|);
    hide Search, Sorted;
    assert forall k | 0 <= k < |nodes| :: nodes[k] in nodes;
    assert i == j;
  }

  /** The node a hash belongs to: the nearest one at or clockwise after it, which
      beyond the last node is the first one of the ring. */
  predicate ClockwiseSuccessor(nodes: seq<Node>, hash: nat, node: Node) {
    && node in nodes
    && (if exists n :: n in nodes && n.hash >= hash then
          node.hash >= hash && forall n | n in nodes && n.hash >= hash :: node.hash <= n.hash
        else
          forall n | n in nodes :: node.hash <= n.hash)
  }

  /** The successor is unique up to nodes of the same hash. */
  lemma SuccessorsShareHash(nodes: seq<Node>, hash: nat, x: Node, y: Node)
    requires ClockwiseSuccessor(nodes, hash, x)
    ensures ClockwiseSuccessor(nodes, hash, y) <==> y in nodes && y.hash == x.hash
  {
  }

  /** A peer that owns a clockwise successor of the hash. */
  ghost predicate MayAnswer(nodes: seq<Node>, hash: nat, token: nat) {
    exists node: Node :: node.token == token && ClockwiseSuccessor(nodes, hash, node)
  }

  // ---- who owns what ----

  /** A peer owns a node exactly for the label numbers up to its weight times the ratio. */
  ghost predicate OwnsHash(weights: seq<u8>, ratio: nat, token: nat, hash: nat) {
    token < |weights| && exists v: nat :: v <= weights[token] * ratio && hash == Hash(Label(v))
  }

  lemma {:induction false} NodesOfOne(owner: nat, count: nat, node: Node)
    ensures node in NodesOf(owner, count)
      <==> node.token == owner && exists v: nat :: v < count && node.hash == Hash(Label(v))
  {
    hide Hash, Label;
    if count > 0 {
      NodesOfOne(owner, count - 1, node);
      var v := count - 1;
      assert node == Node(Hash(Label(v)), owner) <==> node.token == owner && node.hash == Hash(Label(v));
    }
  }

  lemma {:induction false} RingMembers(weights: seq<u8>, ratio: nat, node: Node)
    ensures node in AllNodes(weights, ratio) <==> OwnsHash(weights, ratio, node.token, node.hash)
  {
    hide Hash, Label;
    if weights != [] {
      var last := |weights| - 1;
      RingMembers(weights[..last], ratio, node);
      NodesOfOne(last, weights[last] * ratio + 1, node);
    }
  }

  /** Who may answer for a hash: the owners of a label that hashes like any successor. */
  lemma MayAnswerExactly(weights: seq<u8>, ratio: nat, nodes: seq<Node>, hash: nat, x: Node, token: nat)
    requires multiset(nodes) == multiset(AllNodes(weights, ratio)) && ClockwiseSuccessor(nodes, hash, x)
    ensures MayAnswer(nodes, hash, token) <==> OwnsHash(weights, ratio, token, x.hash)
  {
    hide Hash, Label, AllNodes, ClockwiseSuccessor, OwnsHash;
    var mine := Node(x.hash, token);
    SameMembers(nodes, AllNodes(weights, ratio), mine);
    RingMembers(weights, ratio, mine);
    SuccessorsShareHash(nodes, hash, x, mine);
    forall node: Node | node.token == token && ClockwiseSuccessor(nodes, hash, node)
      ensures node == mine
    {
      SuccessorsShareHash(nodes, hash, x, node);
    }
  }

  lemma SameMembers(a: seq<Node>, b: seq<Node>, node: Node)
    requires multiset(a) == multiset(b)
    ensures node in a <==> node in b
  {
    assert node in multiset(a) <==> node in multiset(b);
  }

  /** Whoever may answer, every peer of no smaller weight may answer as well. */
  lemma HeavierMayAnswer(weights: seq<u8>, ratio: nat, nodes: seq<Node>, hash: nat, token: nat, heavier: nat)
    requires multiset(nodes) == multiset(AllNodes(weights, ratio)) && MayAnswer(nodes, hash, token)
    requires token < |weights| && heavier < |weights| && weights[token] <= weights[heavier]
    ensures MayAnswer(nodes, hash, heavier)
  {
    hide Hash, Label, AllNodes, ClockwiseSuccessor;
    var x: Node :| x.token == token && ClockwiseSuccessor(nodes, hash, x);
    MayAnswerExactly(weights, ratio, nodes, hash, x, token);
    MayAnswerExactly(weights, ratio, nodes, hash, x, heavier);
    MoreWeightMoreLabels(weights[token], weights[heavier], ratio);
  }

  lemma MoreWeightMoreLabels(w: nat, v: nat, ratio: nat)
    requires w <= v
    ensures w * ratio <= v * ratio
  {
  }

  method MakeRing(weights: seq<u8>) returns (nodes: seq<Node>, ghost ratio: nat)
    requires weights != []
    ensures IsRatioOf(weights, ratio)
    ensures Sorted(nodes) && nodes != [] && multiset(nodes) == multiset(AllNodes(weights, ratio))
  {
    hide AllNodes, Sorted, IsRatioOf;
    var replicas := ReplicaRatio(weights);
    var unsorted := BuildNodes(weights, replicas);
    nodes := SortByHash(unsorted);
    ratio := replicas;
    RingIsNotEmpty(weights, ratio);
    assert |nodes| == |multiset(nodes)| == |multiset(unsorted)| == |unsorted|;
  }

  lemma RingIsNotEmpty(weights: seq<u8>, ratio: nat)
    requires weights != []
    ensures AllNodes(weights, ratio) != []
  {
    hide AllNodes;
    OwnedAtFirst(weights, ratio, 0);
  }

  class IpHash {
    const nodes: seq<Node>
    const total: nat
    ghost const weights: seq<u8>

    ghost predicate Valid() {
      && total == |weights| < 0x100
      && Sorted(nodes)
      && (total <= 1 ==> nodes == [])
      && (total > 1 ==> nodes != [] && exists ratio :: IsRing(ratio))
    }

    /** The nodes are those of every peer under the weights' own ratio. */
    ghost predicate IsRing(ratio: nat) {
      && IsRatioOf(weights, ratio)
      && multiset(nodes) == multiset(AllNodes(weights, ratio))
    }

    constructor (weights: seq<u8>)
      requires |weights| < 0x100
      ensures Valid() && this.weights == weights
    {
      this.weights := weights;
      total := |weights|;
      ghost var ratio;
      var ring := [];
      if |weights| > 1 {
        ring, ratio := MakeRing(weights);
      }
      nodes := ring;
      new;
      assert |weights| > 1 ==> IsRing(ratio);
    }

    /** Every peer owns weight * ratio + 1 nodes of the ring. */
    lemma EveryPeerOwnsItsShare(ratio: nat, token: nat)
      requires Valid() && total > 1 && IsRing(ratio) && token < total
      ensures Owned(nodes, token) == weights[token] * ratio + 1
    {
      OwnedAtFirst(weights, ratio, token);
      OwnedOfPermutation(nodes, AllNodes(weights, ratio), token);
    }

    /** A heaviest peer may answer for every hash; with equal weights every peer may. */
    lemma HeaviestMayAnswer(hash: nat, heaviest: nat)
      requires Valid() && total > 1 && heaviest < total
      requires forall i | 0 <= i < total :: weights[i] <= weights[heaviest]
      ensures MayAnswer(nodes, hash, heaviest)
    {
      hide AllNodes, ClockwiseSuccessor, MayAnswer, IsRatioOf, Sorted;
      var x := SomeSuccessor(nodes, hash);
      var ratio :| IsRing(ratio);
      OwnersArePeers(x);
      IsAnswer(nodes, hash, x);
      HeavierMayAnswer(weights, ratio, nodes, hash, x.token, heaviest);
    }

    /** The peer of a hash. It depends on nothing but the ring, which never changes:
        clients of equal hashes always get the same peer. */
    ghost function Peer(hash: nat): nat
      requires Valid()
    {
      if total <= 1 then 0 else nodes[Index(nodes, hash)].token
    }

    /** It is a peer, and one that owns a clockwise successor. */
    lemma PeerMayAnswer(hash: nat)
      requires Valid() && total > 1
      ensures Peer(hash) < total && MayAnswer(nodes, hash, Peer(hash))
    {
      hide ClockwiseSuccessor, Index, Sorted, IsRing, MayAnswer;
      IndexIsSuccessor(nodes, hash);
      IsAnswer(nodes, hash, nodes[Index(nodes, hash)]);
      OwnersArePeers(nodes[Index(nodes, hash)]);
    }

    ghost predicate Answers(token: Option<nat>, hash: nat)
      requires Valid()
    {
      && token == Some(Peer(hash))
      && (total > 1 ==> token.value < total && MayAnswer(nodes, hash, token.value))
    }

    /** The peer of an address: the owner of the clockwise successor of its hash.
        `skew` is how far the octets lie from a word boundary. */
    method Next(ip: IpAddr, skew: nat, bigEndian: bool) returns (token: Option<nat>)
      requires Valid() && WellFormed(ip)
      ensures total <= 1 ==> token == Some(0)
      ensures Answers(token, WordHash(ip.octets, skew))
      ensures skew == 0 ==> Answers(token, Hash(ip.octets))
      ensures 0 < skew < 4 && ip.V4? ==> Answers(token, Start(4))
      ensures 0 < skew < 4 && ip.V6? ==> Answers(token, MixAll(Start(16), Words(ip.octets[skew..skew + 12])))
    {
      hide IsRing, MixAll, Start, Words, Hash, WordHash, MayAnswer, Sorted, Search;
      VariantsAgree(ip.octets);
      if 0 < skew < 4 {
        SkewedHashes(ip.octets, skew);
      }
      if total <= 1 {
        return Some(0);
      }
      var hash := ChashForIp(ip.octets, skew, bigEndian);
      PeerMayAnswer(hash);
      var found, idx := BinarySearch(nodes, hash);
      if !found && idx >= |nodes| {
        idx := 0;
      }
      return Some(nodes[idx].token);
    }

    /** Clients whose hashes have no node between or at them share their peer. */
    lemma ArcsHaveOnePeer(low: nat, high: nat)
      requires Valid() && low <= high
      requires forall node | node in nodes :: node.hash < low || high < node.hash
      ensures Peer(low) == Peer(high)
    {
      if total > 1 {
        ArcHasOneIndex(nodes, low, high);
      }
    }

    /** A skewed IPv6 client shares its peer with all that have the same middle. */
    lemma SkewedV6ClientsMeet(a: IpAddr, b: IpAddr, skew: nat)
      requires Valid() && WellFormed(a) && WellFormed(b) && a.V6? && b.V6? && 0 < skew < 4
      requires a.octets[skew..skew + 12] == b.octets[skew..skew + 12]
      ensures Peer(WordHash(a.octets, skew)) == Peer(WordHash(b.octets, skew))
    {
      hide WordHash, MixAll, Start, Words, Peer;
      SkewedV6IsMiddle(a.octets, skew);
      SkewedV6IsMiddle(b.octets, skew);
    }

    lemma OwnersArePeers(node: Node)
      requires Valid() && total > 1 && node in nodes
      ensures node.token < total
    {
      hide AllNodes, IsRatioOf, Sorted, Hash, Label;
      var ratio :| IsRing(ratio);
      SameMembers(nodes, AllNodes(weights, ratio), node);
      RingMembers(weights, ratio, node);
    }

    /** All clients with a skewed IPv4 address get the same peer, and whatever the
        search had chosen they would get owners of one ring hash. */
    lemma SkewedV4ClientsMeet(a: IpAddr, b: IpAddr, skewA: nat, skewB: nat, x: Node, y: Node)
      requires Valid() && WellFormed(a) && WellFormed(b) && a.V4? && b.V4? && 0 < skewA < 4 && 0 < skewB < 4
      requires ClockwiseSuccessor(nodes, WordHash(a.octets, skewA), x)
      requires ClockwiseSuccessor(nodes, WordHash(b.octets, skewB), y)
      ensures Peer(WordHash(a.octets, skewA)) == Peer(WordHash(b.octets, skewB)) && x.hash == y.hash
    {
      hide ClockwiseSuccessor, WordHash, Start, Peer;
      SkewedV4IsConstant(a.octets, skewA);
      SkewedV4IsConstant(b.octets, skewB);
      SuccessorsShareHash(nodes, Start(4), x, y);
    }
  }

  lemma IsAnswer(nodes: seq<Node>, hash: nat, x: Node)
    requires ClockwiseSuccessor(nodes, hash, x)
    ensures MayAnswer(nodes, hash, x.token)
  {
    hide ClockwiseSuccessor;
  }

  lemma SomeSuccessor(nodes: seq<Node>, hash: nat) returns (x: Node)
    requires Sorted(nodes) && nodes != []
    ensures x in nodes && ClockwiseSuccessor(nodes, hash, x)
  {
    IndexIsSuccessor(nodes, hash);
    x := nodes[Index(nodes, hash)];
  }

  lemma SkewedHashes(octets: seq<byte>, skew: nat)
    requires 0 < skew < 4
    ensures |octets| == 4 ==> WordHash(octets, skew) == Start(4)
    ensures |octets| == 16 ==> WordHash(octets, skew) == MixAll(Start(16), Words(octets[skew..skew + 12]))
  {
    hide MixAll, Words, Start, WordHash;
    if |octets| == 4 {
      SkewedV4IsConstant(octets, skew);
    }
    if |octets| == 16 {
      SkewedV6IsMiddle(octets, skew);
    }
  }

  lemma SuccessorAt(nodes: seq<Node>, hash: nat, idx: nat)
    requires Sorted(nodes) && idx < |nodes|
    requires (idx == 0 && forall i | 0 <= i < |nodes| :: nodes[i].hash < hash)
      || nodes[idx].hash == hash
      || (nodes[idx].hash > hash && forall i | 0 <= i < idx :: nodes[i].hash < hash)
    ensures ClockwiseSuccessor(nodes, hash, nodes[idx])
  {
  }

  method BuildNodes(weights: seq<u8>, ratio: nat) returns (nodes: seq<Node>)
    ensures nodes == AllNodes(weights, ratio)
  {
    hide Hash, Label;
    nodes := [];
    for n := 0 to |weights|
      invariant nodes == AllNodes(weights[..n], ratio)
    {
      var count := weights[n] * ratio + 1;
      ghost var before := nodes;
      for vidx := 0 to count
        invariant nodes == before + NodesOf(n, vidx)
      {
        var hash := Chash(Label(vidx));
        nodes := nodes + [Node(hash, n)];
      }
      assert weights[..n + 1][..n] == weights[..n];
    }
    assert weights[..|weights|] == weights;
  }
}
