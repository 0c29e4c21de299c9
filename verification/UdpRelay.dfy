/** The UDP relay loop: receive a batch, group it by sender, look up or create
    the sender's socket, send the group through it; with the receivers of all
    sockets running in between. */
module UdpRelay {
  import opened Wrappers
  import opened GroupBy
  import opened Association

  datatype UdpError = SocketError

  /** The association table. The lock makes each method one atomic step. */
  class SockMap {
    var table: map<Addr, Sock>

    constructor ()
      ensures table == map[]
    {
      table := map[];
    }

    method Find(addr: Addr) returns (found: Option<Sock>)
      ensures found == if addr in table then Some(table[addr]) else None
    {
      found := if addr in table then Some(table[addr]) else None;
    }

    method Insert(addr: Addr, sock: Sock)
      modifies this
      ensures table == old(table)[addr := sock]
    {
      table := table[addr := sock];
    }

    method Remove(addr: Addr)
      modifies this
      ensures table == old(table) - {addr}
    {
      table := table - {addr};
    }
  }

  predicate SameAddr(p: Packet, q: Packet) {
    p.addr == q.addr
  }

  class Registry {
    const pkts: array<Packet>
    var groups: seq<Range>
    var cursor: nat

    constructor (npkts: nat)
      ensures pkts.Length == npkts && fresh(pkts) && groups == [] && cursor == 0
    {
      pkts := new Packet[npkts](_ => Packet(0, []));
      groups, cursor := [], 0;
    }

    /** A receive that succeeds fills at least one slot and at most all. */
    method BatchedRecv() returns (ok: bool)
      requires pkts.Length > 0
      modifies this`cursor, pkts
      ensures ok ==> 1 <= cursor <= pkts.Length
      ensures !ok ==> cursor == old(cursor)
    {
      if * {
        return false;
      }
      var n :| 1 <= n <= pkts.Length;
      for i := 0 to n {
        pkts[i] := *;
      }
      cursor := n;
      return true;
    }

    method GroupByAddr()
      requires cursor <= pkts.Length
      modifies this`groups, pkts
      ensures multiset(pkts[..cursor]) == old(multiset(pkts[..cursor]))
      ensures cursor > 0 ==> Tiles(groups, cursor) && Classifies(pkts[..cursor], groups, SameAddr)
      ensures cursor == 0 ==> groups == [Range(0, 1)]
    {
      groups := GroupByInner(pkts, cursor, SameAddr);
    }

    /** The packets received and the ranges to visit. */
    method GroupIter() returns (batch: seq<Packet>, ranges: seq<Range>)
      requires cursor <= pkts.Length
      ensures batch == pkts[..cursor] && ranges == groups
    {
      batch, ranges := pkts[..cursor], groups;
    }
  }

  function Through(sock: Sock, pkts: seq<Packet>): (wire: seq<Sent>)
    ensures |wire| == |pkts|
  {
    seq(|pkts|, i requires 0 <= i < |pkts| => Sent(sock, pkts[i]))
  }

  class UdpRelay {
    const sockmap: SockMap
    var st: State               // what the protocol says has happened
    ghost var events: seq<Event>

    ghost predicate Valid()
      reads this, sockmap
    {
      Run(events) == Some(st) && Inv(st) && st.table == sockmap.table
    }

    constructor ()
      ensures Valid() && events == [] && st == INIT && fresh(sockmap)
    {
      sockmap := new SockMap();
      st, events := INIT, [];
      new;
      assert Inv(INIT);
    }

    method Advance(e: Event)
      requires Run(events) == Some(st) && Inv(st) && Step(st, e).Some?
      modifies this
      ensures Run(events) == Some(st) && Inv(st)
      ensures Some(st) == Step(old(st), e) && events == old(events) + [e]
      ensures AnyFailure(events[|old(events)|..]) <==> IsFailure(e)
    {
      FailureNow(events, e);
      RunThen(events, e);
      StepKeepsInv(st, e);
      st, events := Step(st, e).value, events + [e];
    }

    /** One receiver makes one step, if it can. */
    method Other(e: Event)
      requires Valid() && ByReceiver(e)
      modifies this, sockmap
      ensures Valid() && old(events) <= events && !AnyFailure(events[|old(events)|..])
      ensures st.pc == old(st.pc) && st.sent == old(st.sent) && st.owner == old(st.owner)
    {
      hide Inv, Run, AnyFailure;
      NoFailureYet(events);
      if Step(st, e).Some? {
        if e.Remove? {
          sockmap.Remove(st.owner[e.sock]);
        }
        Advance(e);
      }
    }

    /** Any number of receivers make any number of steps. */
    method Others()
      requires Valid()
      modifies this, sockmap
      ensures Valid() && old(events) <= events && !AnyFailure(events[|old(events)|..])
      ensures st.pc == old(st.pc) && st.sent == old(st.sent) && st.owner == old(st.owner)
    {
      hide Inv, Run, AnyFailure, Step;
      var steps: nat := *;
      NoFailureYet(events);
      while steps > 0
        invariant Valid() && old(events) <= events && !AnyFailure(events[|old(events)|..])
        invariant st.pc == old(st.pc) && st.sent == old(st.sent) && st.owner == old(st.owner)
      {
        assert ByReceiver(Finish(0));
        var e: Event :| ByReceiver(e);
        ghost var middle := events;
        Other(e);
        FailureInEither(old(events), middle, events);
        steps := steps - 1;
      }
    }

    /** Three separately locked steps: the receivers may run between any two. A known
        client is answered with its socket at once, an unknown one with a new socket,
        unless none can be created. */
    method FindOrInsert(addr: Addr) returns (r: Result<Sock, UdpError>)
      requires Valid() && st.pc == Idle
      modifies this, sockmap
      ensures Valid() && old(events) <= events && st.sent == old(st.sent)
      ensures st.pc == if r.Ok? then Holding(addr, r.value) else Idle
      ensures r.Err? <==> AnyFailure(events[|old(events)|..])
      ensures addr in old(sockmap.table) ==>
        r == Ok(old(sockmap.table)[addr]) && sockmap.table == old(sockmap.table) && events == old(events) + [Find(addr)]
      ensures addr !in old(sockmap.table) && r.Ok? ==>
        r.value == |old(st.owner)| && addr in sockmap.table && sockmap.table[addr] == r.value
    {
      hide Inv, Run, AnyFailure;
      var found := sockmap.Find(addr);
      Advance(Find(addr));
      if found.Some? {
        return Ok(found.value);
      }
      ghost var e1 := events;
      Others();
      ghost var e2 := events;
      FailureInEither(old(events), e1, e2);
      if * {
        Advance(CreateFailed);
        FailureInEither(old(events), e2, events);
        return Err(SocketError);
      }
      var socket: Sock := |st.owner|;
      Advance(Create);
      ghost var e3 := events;
      FailureInEither(old(events), e2, e3);
      Others();
      ghost var e4 := events;
      FailureInEither(old(events), e3, e4);
      sockmap.Insert(addr, socket);
      Advance(Insert);
      FailureInEither(old(events), e4, events);
      return Ok(socket);
    }

    /** `send_mul_pkts`: some of the datagrams offered, at least one of them. */
    method SendSome(sock: Sock, pkts: seq<Packet>) returns (r: Result<nat, UdpError>)
      requires Valid() && pkts != [] && st.pc.Holding? && st.pc.sock == sock
      requires forall p | p in pkts :: p.addr == st.pc.addr
      modifies this, sockmap
      ensures Valid() && old(events) <= events && st.pc == old(st.pc)
      ensures r.Ok? ==> 1 <= r.value <= |pkts| && st.sent == old(st.sent) + Through(sock, pkts[..r.value])
      ensures r.Err? ==> st.sent == old(st.sent)
      ensures r.Err? <==> AnyFailure(events[|old(events)|..])
    {
      hide Inv, Run, AnyFailure;
      Others();
      ghost var middle := events;
      if * {
        Advance(SendFailed);
        FailureInEither(old(events), middle, events);
        return Err(SocketError);
      }
      var n :| 1 <= n <= |pkts|;
      ghost var sent := st.sent;
      for i := 0 to n
        invariant Valid() && old(events) <= events && st.pc == old(st.pc)
        invariant st.sent == sent + Through(sock, pkts[..i]) && !AnyFailure(events[|old(events)|..])
      {
        middle := events;
        Advance(Send(pkts[i]));
        FailureInEither(old(events), middle, events);
        assert Through(sock, pkts[..i + 1]) == Through(sock, pkts[..i]) + [Sent(sock, pkts[i])];
      }
      return Ok(n);
    }

    /** Sends again from where the last partial send stopped until all are out:
        each datagram once, in order. */
    method SendAll(sock: Sock, pkts: seq<Packet>) returns (r: Result<(), UdpError>)
      requires Valid() && st.pc.Holding? && st.pc.sock == sock
      requires forall p | p in pkts :: p.addr == st.pc.addr
      modifies this, sockmap
      ensures Valid() && old(events) <= events && st.pc == old(st.pc)
      ensures r.Ok? ==> st.sent == old(st.sent) + Through(sock, pkts)
      ensures r.Err? ==> exists n | 0 <= n < |pkts| :: st.sent == old(st.sent) + Through(sock, pkts[..n])
      ensures r.Err? <==> AnyFailure(events[|old(events)|..])
    {
      hide Inv, Run, Step, AnyFailure;
      var cursor := 0;
      assert st.sent == old(st.sent) + Through(sock, pkts[..0]);
      NoFailureYet(events);
      while cursor < |pkts|
        invariant Valid() && old(events) <= events && st.pc == old(st.pc)
        invariant cursor <= |pkts| && st.sent == old(st.sent) + Through(sock, pkts[..cursor])
        invariant !AnyFailure(events[|old(events)|..])
      {
        ghost var middle := events;
        var n := SendSome(sock, pkts[cursor..]);
        FailureInEither(old(events), middle, events);
        if n.Err? {
          return Err(n.error);
        }
        assert Through(sock, pkts[..cursor + n.value])
            == Through(sock, pkts[..cursor]) + Through(sock, pkts[cursor..][..n.value]);
        cursor := cursor + n.value;
      }
      assert pkts[..cursor] == pkts;
      return Ok(());
    }

    /** One group: its sender's socket is looked up or created, and used. */
    method RelayGroup(pkts: seq<Packet>) returns (r: Result<(), UdpError>, ghost sock: Sock, ghost out: seq<Packet>)
      requires Valid() && st.pc == Idle && pkts != []
      requires forall p | p in pkts :: p.addr == pkts[0].addr
      modifies this, sockmap
      ensures Valid() && old(events) <= events && st.pc == Idle
      ensures out <= pkts && st.sent == old(st.sent) + Through(sock, out)
      ensures r.Ok? ==> out == pkts
      ensures r.Err? <==> AnyFailure(events[|old(events)|..])
    {
      hide Inv, Run, AnyFailure;
      var laddr := pkts[0].addr;
      var rsock := FindOrInsert(laddr);
      if rsock.Err? {
        return Err(rsock.error), 0, [];
      }
      ghost var sent, e1 := st.sent, events;
      r := SendAll(rsock.value, pkts);
      ghost var e2 := events;
      FailureInEither(old(events), e1, e2);
      sock := rsock.value;
      if r.Ok? {
        out := pkts;
      } else {
        ghost var n :| 0 <= n < |pkts| && st.sent == sent + Through(sock, pkts[..n]);
        out := pkts[..n];
      }
      Advance(Release);
      FailureInEither(old(events), e2, events);
    }

    /** One batch. Unless the environment refuses a socket or a send, every datagram
        received goes out exactly once, all of one sender's through the same socket,
        created for that sender. */
    method RelayBatch(registry: Registry) returns (r: Result<(), UdpError>, ghost wire: seq<Sent>)
      requires Valid() && st.pc == Idle && 1 <= registry.cursor <= registry.pkts.Length
      modifies this, sockmap, registry`groups, registry.pkts
      ensures Valid() && old(events) <= events && st.pc == Idle
      ensures st.sent == old(st.sent) + wire
      ensures OwnSockets(st, wire) && OneSocketEach(wire)
      ensures multiset(Packets(wire)) <= old(multiset(registry.pkts[..registry.cursor]))
      ensures r.Ok? ==> multiset(Packets(wire)) == old(multiset(registry.pkts[..registry.cursor]))
      ensures r.Err? <==> AnyFailure(events[|old(events)|..])
    {
      hide Inv, Run, Classifies, Tiles, OneSocketEach, OwnSockets, Packets, AnyFailure;
      ghost var sent := st.sent;
      registry.GroupByAddr();
      var pkts, ranges := registry.GroupIter();
      r, wire := RelayGroups(pkts, ranges);
      FrontIsPart(pkts, |wire|);
      assert pkts[..|pkts|] == pkts;
      SentIsOwned(sent, wire);
    }

    method RelayGroups(pkts: seq<Packet>, ranges: seq<Range>)
      returns (r: Result<(), UdpError>, ghost wire: seq<Sent>)
      requires Valid() && st.pc == Idle && pkts != []
      requires Tiles(ranges, |pkts|) && Classifies(pkts, ranges, SameAddr)
      modifies this, sockmap
      ensures Valid() && old(events) <= events && st.pc == Idle
      ensures st.sent == old(st.sent) + wire && OneSocketEach(wire)
      ensures |wire| <= |pkts| && Packets(wire) == pkts[..|wire|]
      ensures r.Ok? ==> |wire| == |pkts|
      ensures r.Err? <==> AnyFailure(events[|old(events)|..])
    {
      hide Inv, Run, Classifies, Tiles, OneSocketEach, Packets, Through, AnyFailure;
      ghost var sent := st.sent;
      wire := [];
      NothingSentYet(pkts);
      NoFailureYet(events);
      for g := 0 to |ranges|
        invariant Valid() && old(events) <= events && st.pc == Idle && st.sent == sent + wire
        invariant |wire| == (if g == 0 then 0 else ranges[g - 1].end) <= |pkts|
        invariant Packets(wire) == pkts[..|wire|] && OneSocketEach(wire)
        invariant !AnyFailure(events[|old(events)|..])
      {
        TilesAt(ranges, |pkts|, g);
        SameSender(pkts, ranges, g);
        var range := ranges[g];
        ghost var sock, out;
        ghost var middle := events;
        r, sock, out := RelayGroup(pkts[range.start..range.end]);
        FailureInEither(old(events), middle, events);
        WireGrows(wire, pkts, range, sock, out);
        wire := wire + Through(sock, out);
        if r.Err? {
          return;
        }
      }
      NotEmpty(ranges, |pkts|);
      TilesAt(ranges, |pkts|, |ranges| - 1);
      r := Ok(());
    }

    lemma SentIsOwned(before: seq<Sent>, wire: seq<Sent>)
      requires Valid() && st.sent == before + wire
      ensures OwnSockets(st, wire)
    {
      assert forall x | x in wire :: x in st.sent;
    }
  }

  function Packets(wire: seq<Sent>): seq<Packet> {
    seq(|wire|, i requires 0 <= i < |wire| => wire[i].packet)
  }

  /** Every datagram left through a socket created for its sender. */
  ghost predicate OwnSockets(s: State, wire: seq<Sent>) {
    forall x | x in wire :: x.sock < |s.owner| && s.owner[x.sock] == x.packet.addr
  }

  ghost predicate OneSocketEach(wire: seq<Sent>) {
    forall i, j | 0 <= i < |wire| && 0 <= j < |wire| && wire[i].packet.addr == wire[j].packet.addr ::
      wire[i].sock == wire[j].sock
  }

  lemma {:induction false} TilesAt(groups: seq<Range>, n: nat, g: nat)
    requires Tiles(groups, n) && g < |groups|
    ensures groups[g].start == if g == 0 then 0 else groups[g - 1].end
    ensures groups[g].start < groups[g].end <= n
    ensures groups[|groups| - 1].end == n
  {
    var last := |groups| - 1;
    if g < last {
      TilesAt(groups[..last], groups[last].start, g);
    } else if last > 0 {
      TilesAt(groups[..last], groups[last].start, last - 1);
    }
  }

  lemma NotEmpty(groups: seq<Range>, n: nat)
    requires Tiles(groups, n) && n > 0
    ensures groups != []
  {
  }

  /** The packets of one group share a sender that no packet before them has. */
  lemma SameSender(batch: seq<Packet>, groups: seq<Range>, g: nat)
    requires Classifies(batch, groups, SameAddr) && g < |groups|
    ensures var range := groups[g];
      && range.start < range.end <= |batch|
      && (forall i | range.start <= i < range.end :: batch[i].addr == batch[range.start].addr)
      && (forall i | 0 <= i < range.start :: batch[i].addr != batch[range.start].addr)
  {
    var range := groups[g];
    assert IsClass(batch, range, SameAddr);
    assert forall i | range.start <= i < range.end :: InRange(range, i);
    assert forall i | 0 <= i < range.start :: !InRange(range, i);
  }

  lemma NothingSentYet(batch: seq<Packet>)
    ensures Packets([]) == batch[..0] && OneSocketEach([])
  {
  }

  lemma FrontIsPart(batch: seq<Packet>, n: nat)
    requires n <= |batch|
    ensures multiset(batch[..n]) <= multiset(batch)
  {
    assert batch == batch[..n] + batch[n..];
  }

  lemma WireGrows(wire: seq<Sent>, batch: seq<Packet>, range: Range, sock: Sock, out: seq<Packet>)
    requires |wire| == range.start < range.end <= |batch|
    requires Packets(wire) == batch[..|wire|] && OneSocketEach(wire)
    requires forall i | range.start <= i < range.end :: batch[i].addr == batch[range.start].addr
    requires forall i | 0 <= i < range.start :: batch[i].addr != batch[range.start].addr
    requires out <= batch[range.start..range.end]
    ensures Packets(wire + Through(sock, out)) == batch[..|wire| + |out|]
    ensures OneSocketEach(wire + Through(sock, out))
  {
    var longer := wire + Through(sock, out);
    forall i | 0 <= i < |longer|
      ensures longer[i].packet == batch[i] && longer[i].sock == if i < |wire| then wire[i].sock else sock
    {
      if i < |wire| {
        assert Packets(wire)[i] == batch[i];
      } else {
        assert out[i - |wire|] == batch[range.start..range.end][i - |wire|];
      }
    }
  }
}
