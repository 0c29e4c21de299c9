/** The UDP association table shared by one inserter (the relay loop) and any
    number of `send_back` receivers, as a state machine over the points where
    the lock is taken or a task yields. Every interleaving is a list of events. */
module Association {
  import opened Wrappers

  type Addr = nat      // client addresses, up to equality
  type Sock = nat      // sockets, numbered as they are created

  datatype Packet = Packet(addr: Addr, payload: seq<bv8>)

  /** A `send_back` task: in its loop, past its loop, or returned. */
  datatype Receiver = Running | Finishing | Gone

  /** The relay loop, between two groups or inside `find_or_insert` or sending. */
  datatype Inserter =
    | Idle
    | Missed(addr: Addr)
    | Created(addr: Addr, sock: Sock)
    | Holding(addr: Addr, sock: Sock)

  datatype Sent = Sent(sock: Sock, packet: Packet)
  datatype Reply = Reply(sock: Sock, to: Addr)

  datatype State = State(
    table: map<Addr, Sock>,
    owner: seq<Addr>,            // the client each socket was created for
    receiver: seq<Receiver>,     // the receiver spawned with each socket
    pc: Inserter,
    sent: seq<Sent>,             // datagrams to the remote, by socket
    replies: seq<Reply>)         // datagrams back to clients

  datatype Event =
    | Find(addr: Addr) | CreateFailed | Create | Insert | Send(packet: Packet) | SendFailed | Release
    | ReplyFrom(sock: Sock) | Finish(sock: Sock) | Remove(sock: Sock)

  const INIT := State(map[], [], [], Idle, [], [])

  predicate ByReceiver(e: Event) {
    e.ReplyFrom? || e.Finish? || e.Remove?
  }

  /** The environment refuses a socket or a send. */
  predicate IsFailure(e: Event) {
    e.CreateFailed? || e.SendFailed?
  }

  predicate AnyFailure(events: seq<Event>) {
    exists e | e in events :: IsFailure(e)
  }

  lemma FailureInEither(before: seq<Event>, middle: seq<Event>, after: seq<Event>)
    requires before <= middle <= after
    ensures AnyFailure(after[|before|..]) <==> AnyFailure(middle[|before|..]) || AnyFailure(after[|middle|..])
  {
    assert after[|before|..] == middle[|before|..] + after[|middle|..];
  }

  lemma NoFailureYet(events: seq<Event>)
    ensures !AnyFailure(events[|events|..])
  {
  }

  lemma FailureNow(events: seq<Event>, e: Event)
    ensures AnyFailure((events + [e])[|events|..]) <==> IsFailure(e)
  {
    assert (events + [e])[|events|..] == [e];
  }

  function Step(s: State, e: Event): Option<State> {
    match e
    case Find(a) =>
      if s.pc != Idle then None
      else if a in s.table then Some(s.(pc := Holding(a, s.table[a])))
      else Some(s.(pc := Missed(a)))
    case CreateFailed =>
      if s.pc.Missed? then Some(s.(pc := Idle)) else None
    case Create =>
      // the receiver is spawned here, before the socket is in the table
      if s.pc.Missed? then
        Some(s.(pc := Created(s.pc.addr, |s.owner|),
                owner := s.owner + [s.pc.addr], receiver := s.receiver + [Running]))
      else None
    case Insert =>
      if s.pc.Created? then
        Some(s.(pc := Holding(s.pc.addr, s.pc.sock), table := s.table[s.pc.addr := s.pc.sock]))
      else None
    case Send(p) =>
      if s.pc.Holding? && p.addr == s.pc.addr then Some(s.(sent := s.sent + [Sent(s.pc.sock, p)])) else None
    case SendFailed =>
      if s.pc.Holding? then Some(s) else None
    case Release =>
      if s.pc.Holding? then Some(s.(pc := Idle)) else None
    case ReplyFrom(k) =>
      if k < |s.receiver| && k < |s.owner| && s.receiver[k].Running? then
        Some(s.(replies := s.replies + [Reply(k, s.owner[k])]))
      else None
    case Finish(k) =>
      if k < |s.receiver| && s.receiver[k].Running? then
        Some(s.(receiver := s.receiver[k := Finishing]))
      else None
    case Remove(k) =>
      if k < |s.receiver| && k < |s.owner| && s.receiver[k].Finishing? then
        Some(s.(receiver := s.receiver[k := Gone], table := s.table - {s.owner[k]}))
      else None
  }

  function Run(events: seq<Event>): Option<State> {
    if events == [] then Some(INIT) else
      var before := Run(events[..|events| - 1]);
      if before.Some? then Step(before.value, events[|events| - 1]) else None
  }

  lemma RunThen(events: seq<Event>, e: Event)
    requires Run(events).Some?
    ensures Run(events + [e]) == Step(Run(events).value, e)
  {
    assert (events + [e])[..|events|] == events;
  }

  // ---- the invariant ----

  /** The receiver of socket `k` has not removed its association yet. */
  predicate Unfinished(s: State, k: Sock) {
    k < |s.receiver| && !s.receiver[k].Gone?
  }

  ghost predicate Inv(s: State) {
    && |s.owner| == |s.receiver|
    && (forall a | a in s.table :: s.table[a] < |s.owner| && s.owner[s.table[a]] == a)
    && (forall k | 0 <= k < |s.receiver| && !s.receiver[k].Gone? :: Associated(s, k))
    && (match s.pc
        case Idle => true
        case Missed(a) => a !in s.table
        case Created(a, k) => a !in s.table && k < |s.owner| && s.owner[k] == a
        case Holding(a, k) => k < |s.owner| && s.owner[k] == a)
    && (forall x | x in s.sent :: x.sock < |s.owner| && s.owner[x.sock] == x.packet.addr)
    && (forall x | x in s.replies :: x.sock < |s.owner| && s.owner[x.sock] == x.to)
  }

  /** An unfinished receiver is the one in the table, or about to be put there. */
  predicate Associated(s: State, k: Sock)
    requires k < |s.receiver|
  {
    k < |s.owner| &&
    ((s.owner[k] in s.table && s.table[s.owner[k]] == k) || s.pc == Created(s.owner[k], k))
  }

  lemma StepKeepsInv(s: State, e: Event)
    requires Inv(s) && Step(s, e).Some?
    ensures Inv(Step(s, e).value)
  {
    hide Inv, Step;
    if ByReceiver(e) {
      ReceiverKeepsInv(s, e);
    } else {
      InserterKeepsInv(s, e);
    }
  }

  lemma InserterKeepsInv(s: State, e: Event)
    requires Inv(s) && Step(s, e).Some? && !ByReceiver(e)
    ensures Inv(Step(s, e).value)
  {
    var t := Step(s, e).value;
    match e
    case Find(_) => assert Inv(t);
    case CreateFailed => assert Inv(t);
    case Create => assert Inv(t);
    case Insert => assert Inv(t);
    case Send(_) => assert Inv(t);
    case SendFailed => assert Inv(t);
    case Release => assert Inv(t);
  }

  lemma ReceiverKeepsInv(s: State, e: Event)
    requires Inv(s) && Step(s, e).Some? && ByReceiver(e)
    ensures Inv(Step(s, e).value)
  {
    var t := Step(s, e).value;
    match e
    case ReplyFrom(_) => assert Inv(t);
    case Finish(_) => assert Inv(t);
    case Remove(_) => assert Inv(t);
  }

  /** Every interleaving keeps the invariant. */
  lemma {:induction false} RunKeepsInv(events: seq<Event>)
    requires Run(events).Some?
    ensures Inv(Run(events).value)
  {
    if events != [] {
      RunKeepsInv(events[..|events| - 1]);
      StepKeepsInv(Run(events[..|events| - 1]).value, events[|events| - 1]);
    }
  }

  // ---- what the invariant means ----

  /** At most one receiver per client address is unfinished at any time. */
  lemma OneReceiverPerClient(events: seq<Event>, j: Sock, k: Sock)
    requires Run(events).Some?
    requires var s := Run(events).value;
      && j < |s.owner| && k < |s.owner| && s.owner[j] == s.owner[k]
      && Unfinished(s, j) && Unfinished(s, k)
    ensures j == k
  {
    RunKeepsInv(events);
    var s := Run(events).value;
    assert Associated(s, j) && Associated(s, k);
  }

  /** A finishing receiver takes its own association out of the table, or none. */
  lemma RemovesOnlyItsOwn(events: seq<Event>, k: Sock)
    requires Run(events).Some? && Step(Run(events).value, Remove(k)).Some?
    ensures var s := Run(events).value;
      k < |s.owner| && (s.owner[k] in s.table ==> s.table[s.owner[k]] == k)
  {
    RunKeepsInv(events);
    var s := Run(events).value;
    assert Associated(s, k);
  }

  /** A client's datagrams leave only by sockets created for it, and replies on
      a socket go only to the client it was created for. */
  lemma NoCrossTraffic(events: seq<Event>)
    requires Run(events).Some?
    ensures var s := Run(events).value;
      && (forall x | x in s.sent :: x.sock < |s.owner| && s.owner[x.sock] == x.packet.addr)
      && (forall x | x in s.replies :: x.sock < |s.owner| && s.owner[x.sock] == x.to)
  {
    RunKeepsInv(events);
  }

  /** An entry without a live receiver. */
  predicate Stale(s: State, a: Addr) {
    a in s.table && s.table[a] < |s.receiver| && s.receiver[s.table[a]].Gone?
  }

  /** Event `j` puts socket `k` into the table. */
  ghost predicate InsertedBy(events: seq<Event>, j: nat, k: Sock) {
    && j < |events| && events[j] == Insert
    && Run(events[..j]).Some? && Run(events[..j]).value.pc.Created? && Run(events[..j]).value.pc.sock == k
  }

  /** The receiver of `k` removed its association before that was inserted. */
  ghost predicate RemovedBeforeInsert(events: seq<Event>, k: Sock) {
    exists j: nat :: InsertedBy(events, j, k) && Remove(k) in events[..j]
  }

  /** Entries without a receiver occur exactly when the receiver returned between
      being spawned and its socket being inserted. */
  lemma StaleExactlyWhenEarly(events: seq<Event>, a: Addr)
    requires Run(events).Some?
    ensures var s := Run(events).value;
      Stale(s, a) <==> a in s.table && RemovedBeforeInsert(events, s.table[a])
  {
    hide Run;
    RunKeepsInv(events);
    if a in Run(events).value.table {
      var k := Run(events).value.table[a];
      GoneMeansRemoved(events, k);
      EntriesWereInserted(events, a);
    }
  }

  lemma {:induction false} GoneMeansRemoved(events: seq<Event>, k: Sock)
    requires Run(events).Some? && k < |Run(events).value.receiver|
    ensures Run(events).value.receiver[k].Gone? <==> Remove(k) in events
  {
    if events != [] {
      var last := |events| - 1;
      var s := Run(events[..last]).value;
      GoneAfter(s, events[last], k);
      hide Run, Step;
      assert Remove(k) in events <==> Remove(k) in events[..last] || events[last] == Remove(k);
      if k < |s.receiver| {
        GoneMeansRemoved(events[..last], k);
      } else {
        NotRemovedYet(events[..last], k);
      }
    }
  }

  lemma GoneAfter(s: State, e: Event, k: Sock)
    requires Step(s, e).Some? && k < |Step(s, e).value.receiver|
    ensures Step(s, e).value.receiver[k].Gone?
      <==> k < |s.receiver| && (s.receiver[k].Gone? || e == Remove(k))
    ensures e == Remove(k) ==> k < |s.receiver|
  {
  }

  lemma ReceiversStay(s: State, e: Event)
    requires Step(s, e).Some?
    ensures |s.receiver| <= |Step(s, e).value.receiver|
    ensures e.Remove? ==> e.sock < |s.receiver|
  {
  }

  lemma {:induction false} NotRemovedYet(events: seq<Event>, k: Sock)
    requires Run(events).Some? && k >= |Run(events).value.receiver|
    ensures Remove(k) !in events
  {
    if events != [] {
      var last := |events| - 1;
      ReceiversStay(Run(events[..last]).value, events[last]);
      hide Run, Step;
      NotRemovedYet(events[..last], k);
      assert events == events[..last] + [events[last]];
    }
  }

  /** Every entry was inserted by some event, and if its receiver has returned, it
      had before: afterwards it would have taken the entry along. */
  lemma {:induction false} EntriesWereInserted(events: seq<Event>, a: Addr)
    requires Run(events).Some? && a in Run(events).value.table
    ensures var k := Run(events).value.table[a];
      exists j: nat :: InsertedBy(events, j, k) && (Remove(k) in events ==> Remove(k) in events[..j])
  {
    var last := |events| - 1;
    var init, e, k := events[..last], events[last], Run(events).value.table[a];
    RunKeepsInv(init);
    EntryAfter(Run(init).value, e, a);
    hide Run, Step, Inv, InsertedBy;
    assert events == init + [e];
    if e == Insert && Run(init).value.pc.Created? && Run(init).value.pc.sock == k {
      InsertedNow(init, k);
    } else {
      EntriesWereInserted(init, a);
      var j: nat :| InsertedBy(init, j, k) && (Remove(k) in init ==> Remove(k) in init[..j]);
      InsertedEarlier(init, e, j, k);
    }
  }

  lemma InsertedNow(init: seq<Event>, k: Sock)
    requires Run(init).Some? && Run(init).value.pc.Created? && Run(init).value.pc.sock == k
    ensures InsertedBy(init + [Insert], |init|, k) && (init + [Insert])[..|init|] == init
  {
    assert (init + [Insert])[..|init|] == init;
  }

  lemma InsertedEarlier(init: seq<Event>, e: Event, j: nat, k: Sock)
    requires InsertedBy(init, j, k)
    ensures InsertedBy(init + [e], j, k) && (init + [e])[..j] == init[..j]
  {
    hide Run;
    assert (init + [e])[..j] == init[..j];
  }

  /** An entry comes with an insert, and stays until its own receiver removes it. */
  lemma EntryAfter(s: State, e: Event, a: Addr)
    requires Inv(s) && Step(s, e).Some? && a in Step(s, e).value.table
    ensures var k := Step(s, e).value.table[a];
      || (e == Insert && s.pc.Created? && s.pc.sock == k)
      || (a in s.table && s.table[a] == k && e != Remove(k))
  {
  }

  lemma StaleOccurs(a: Addr)
    ensures var events := [Find(a), Create, Finish(0), Remove(0), Insert];
      Run(events).Some? && Stale(Run(events).value, a)
  {
    var e1 := [Find(a)];
    var e2 := e1 + [Create];
    var e3 := e2 + [Finish(0)];
    var e4 := e3 + [Remove(0)];
    assert e1 == [] + [Find(a)] && [Find(a), Create, Finish(0), Remove(0), Insert] == e4 + [Insert];
    RunThen([], Find(a));
    RunThen(e1, Create);
    RunThen(e2, Finish(0));
    RunThen(e3, Remove(0));
    RunThen(e4, Insert);
  }

  /** A stale entry is never repaired: whatever happens later the table keeps it,
      and no reply ever reaches that client again. */
  lemma {:induction false} StaleForever(events: seq<Event>, more: seq<Event>, a: Addr)
    requires Run(events).Some? && Stale(Run(events).value, a) && Run(events + more).Some?
    ensures var s, t := Run(events).value, Run(events + more).value;
      && Stale(t, a) && t.table[a] == s.table[a]
      && s.replies <= t.replies
      && forall i | |s.replies| <= i < |t.replies| :: t.replies[i].to != a
  {
    if more == [] {
      assert events + more == events;
    } else {
      var init := more[..|more| - 1];
      assert (events + more)[..|events + more| - 1] == events + init;
      StaleForever(events, init, a);
      RunKeepsInv(events + init);
      StaleStep(Run(events + init).value, more[|more| - 1], a);
    }
  }

  lemma StaleStep(s: State, e: Event, a: Addr)
    requires Inv(s) && Stale(s, a) && Step(s, e).Some?
    ensures var t := Step(s, e).value;
      && Stale(t, a) && t.table[a] == s.table[a] && s.replies <= t.replies
      && forall i | |s.replies| <= i < |t.replies| :: t.replies[i].to != a
  {
    var k := if ByReceiver(e) then e.sock else 0;
    if ByReceiver(e) {
      assert Associated(s, k);
    }
  }
}
