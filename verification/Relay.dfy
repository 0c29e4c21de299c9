/** The relay of one connection: the obfuscation prefix, then both copies; and
    what two relays back to back deliver. */
module Relay {
  import opened Bytes
  import opened Wrappers
  import opened Streams
  import opened CopyMachine
  import opened CopyBuffer
  import opened BidiCopy
  import opened Decimals
  import opened Obfs
  import opened ObfsLaws

  function ObfsKey(): seq<byte> {
    Text("hoorayhug_obfs_key_2024")
  }

  /** `write_all`: offers the rest until nothing is left; an error is the writer's.
      Awaiting hides Pending. */
  method WriteAll(w: Stream, data: seq<byte>) returns (r: Result<(), IoError>)
    requires w.Writable() && !w.shut
    modifies w`written, w`writeLog, w`offered
    ensures w.Writable() && old(w.written) <= w.written && old(w.writeLog) <= w.writeLog
    ensures r.Ok? ==> w.written == old(w.written) + data
    ensures r.Err? ==> exists n | 0 <= n <= |data| :: w.written == old(w.written) + data[..n]
    ensures r.Err? <==> AnyFails(w.writeLog[|old(w.writeLog)|..])
    ensures r.Err? ==> EndsIn(r.error, w.writeLog)
  {
    hide AnyFails;
    var done := 0;
    ghost var before, gained: seq<Op> := w.writeLog, [];
    NothingFails();
    assert w.written == old(w.written) + data[..0];
    while done < |data|
      invariant w.Writable() && done <= |data|
      invariant w.written == old(w.written) + data[..done]
      invariant w.writeLog == before + gained && !AnyFails(gained)
    {
      var n := Written(w, data[done..]);
      Answered(before, gained, WriteOp(Ready(n)));
      gained := gained + [WriteOp(Ready(n))];
      if n.Err? {
        return Err(n.error);
      }
      if n.value == 0 {
        return Err(WriteZero);
      }
      assert data[..done] + data[done..][..n.value] == data[..done + n.value];
      done := done + n.value;
    }
    Tail(before, gained);
    return Ok(());
  }

  lemma NothingFails()
    ensures !AnyFails([])
  {
  }

  lemma Answered(before: seq<Op>, gained: seq<Op>, op: Op)
    ensures before + gained + [op] == before + (gained + [op])
    ensures (before + (gained + [op]))[|before|..] == gained + [op]
    ensures AnyFails(gained + [op]) <==> AnyFails(gained) || Fails(op)
  {
    hide AnyFails;
    AnyThen(gained, op);
    Regroup(before, gained, [op]);
    Tail(before, gained + [op]);
  }

  /** The first outcome of a write that is not Pending. */
  method Written(w: Stream, data: seq<byte>) returns (r: Result<nat, IoError>)
    requires w.Writable() && !w.shut
    modifies w`written, w`writeLog, w`offered
    ensures w.Writable() && w.offered == data && w.writeLog == old(w.writeLog) + [WriteOp(Ready(r))]
    ensures r.Ok? ==> r.value <= |data| && w.written == old(w.written) + data[..r.value]
    ensures r.Err? ==> w.written == old(w.written)
  {
    if * {
      r := Err(Broken);
    } else {
      var n :| 0 <= n <= |data|;
      w.written := w.written + data[..n];
      r := Ok(n);
    }
    w.writeLog, w.offered := w.writeLog + [WriteOp(Ready(r))], data;
  }

  /** The first outcome of a read that is not Pending. */
  method Received(s: Stream, room: nat) returns (r: Result<seq<byte>, IoError>)
    requires s.Readable()
    modifies s`rd, s`readLog, s`asked
    ensures s.Readable() && old(s.rd) <= s.rd
    ensures s.asked == room && s.readLog == old(s.readLog) + [ReadOp(Counted(Ready(r)))]
    ensures r.Ok? ==> |r.value| <= room && r.value == s.input[old(s.rd)..s.rd]
    ensures r.Ok? && r.value == [] ==> s.rd == |s.input| || room == 0
    ensures r.Err? ==> r.error == Broken && s.rd == old(s.rd)
  {
    if * {
      r := Err(Broken);
    } else if s.rd == |s.input| || room == 0 {
      r := Ok([]);
    } else {
      var n :| 1 <= n <= room && s.rd + n <= |s.input|;
      r := Ok(s.input[s.rd..s.rd + n]);
      s.rd := s.rd + n;
    }
    s.readLog, s.asked := s.readLog + [ReadOp(Counted(Ready(r)))], room;
  }

  /** `read_exact`: all `n` bytes or an error: the reader's own, or, at the end of the
      stream, the latter. */
  method ReadExact(s: Stream, n: nat) returns (r: Result<seq<byte>, IoError>)
    requires s.Readable()
    modifies s`rd, s`readLog, s`asked
    ensures s.Readable() && old(s.rd) <= s.rd && old(s.readLog) <= s.readLog
    ensures r.Ok? ==> |r.value| == n && r.value == s.input[old(s.rd)..s.rd]
    ensures r.Err? ==> r.error == Broken || (r.error == UnexpectedEof && |s.input| - old(s.rd) < n)
    ensures r == Err(Broken) <==> AnyFails(s.readLog[|old(s.readLog)|..])
  {
    hide AnyFails;
    var data := [];
    ghost var before, gained: seq<Op> := s.readLog, [];
    NothingFails();
    while |data| < n
      invariant s.Readable() && old(s.rd) <= s.rd && |data| <= n && data == s.input[old(s.rd)..s.rd]
      invariant s.readLog == before + gained && !AnyFails(gained)
      decreases n - |data|
    {
      var piece := Received(s, n - |data|);
      Answered(before, gained, ReadOp(Counted(Ready(piece))));
      gained := gained + [ReadOp(Counted(Ready(piece)))];
      if piece.Err? {
        return Err(piece.error);
      }
      if piece.value == [] {
        return Err(UnexpectedEof);
      }
      data := data + piece.value;
    }
    Tail(before, gained);
    return Ok(data);
  }

  function ErrorOf(e: ParseError): IoError {
    match e
    case Truncated => UnexpectedEof
    case Probe => InvalidData
    case LengthAnomaly => InvalidData
  }

  /** `consume_dynamic_obfs`: unless the stream itself breaks, it answers as the
      parser does and leaves exactly what the parser leaves. A probe costs the
      five header bytes only. */
  method ConsumeDynamicObfs(s: Stream, key: seq<byte>) returns (r: Result<(), IoError>)
    requires s.Readable()
    modifies s`rd, s`readLog, s`asked
    ensures s.Readable() && old(s.rd) <= s.rd && old(s.readLog) <= s.readLog
    ensures r == Err(Broken) <==> AnyFails(s.readLog[|old(s.readLog)|..])
    ensures r == Err(Broken) || match Parse(key, old(s.Unread()))
      case Ok(rest) => r.Ok? && s.Unread() == rest
      case Err(e) => r == Err(ErrorOf(e))
    ensures Parse(key, old(s.Unread())) == Err(Probe) && r != Err(Broken) ==>
      r == Err(InvalidData) && s.rd == old(s.rd) + 5
    ensures Parse(key, old(s.Unread())) == Err(Truncated) && r != Err(Broken) ==> r == Err(UnexpectedEof)
  {
    hide AnyFails, Mask, Value, Digits;
    ghost var stream, before := s.Unread(), s.readLog;
    var header := ReadExact(s, 5);
    if header.Err? {
      return Err(header.error);
    }
    ghost var middle := s.readLog;
    assert header.value == stream[..5];
    var unmasked := ApplyKey(key, header.value);
    var digits := CollectDigits(unmasked);
    var isProbe := false;
    var len := |digits|;
    if len != 2 && len != 3 {
      isProbe := true;
    } else if len == 2 && digits[0] == 48 {
      isProbe := true;
    } else if len == 3 && digits[0] == 48 && digits[1] == 48 {
      isProbe := true;
    }
    if isProbe {
      return Err(InvalidData);
    }
    var l := Value(digits);
    if l > 999 {
      return Err(InvalidData);
    }
    var garbage := ReadExact(s, l);
    FailsInEither(before, middle, s.readLog);
    if garbage.Err? {
      return Err(garbage.error);
    }
    assert s.Unread() == stream[5 + l..];
    return Ok(());
  }

  lemma FailsInEither(before: seq<Op>, middle: seq<Op>, after: seq<Op>)
    requires before <= middle <= after
    ensures AnyFails(after[|before|..]) <==> AnyFails(middle[|before|..]) || AnyFails(after[|middle|..])
  {
    assert after[|before|..] == middle[|before|..] + after[|middle|..];
  }

  /** The prefix exchange of `bidi_copy_buf`: in mode 1 the prefix is written to
      `b`, and not flushed; in mode 2 it is consumed from `a`. */
  method ExchangePrefix(a: Stream, b: Stream, mode: nat, seed: nat) returns (r: Result<(), IoError>)
    requires a.Readable() && b.Writable() && !b.shut && a != b
    modifies a`rd, a`readLog, a`asked, b`written, b`writeLog, b`offered
    ensures a.Readable() && b.Writable() && old(a.rd) <= a.rd
    ensures Excused(r, mode, old(MarkOf(a, b)), MarkOf(a, b), old(a.Unread()))
    ensures r.Ok? ==> b.written == old(b.written) + if mode == 1 then Generate(ObfsKey(), LcgDraws(seed)) else []
    ensures r.Ok? && mode == 2 ==> Parse(ObfsKey(), old(a.Unread())) == Ok(a.Unread())
    ensures mode != 2 ==> a.rd == old(a.rd)
  {
    hide Generate, Parse, LcgDraws, ObfsKey;
    r := Ok(());
    if mode == 1 {
      var prefix := GenerateDynamicObfs(ObfsKey(), seed);
      r := WriteAll(b, prefix);
    } else if mode == 2 {
      r := ConsumeDynamicObfs(a, ObfsKey());
    }
  }

  /** Why an exchange may fail: the writer failed the prefix, the reader failed, or
      what it sent does not begin with a prefix. Nothing else makes it fail. */
  ghost predicate Excused<T>(r: Result<T, IoError>, mode: nat, before: Mark, now: Mark, stream: seq<byte>) {
    && before.readLog <= now.readLog && before.writeLog <= now.writeLog
    && (mode != 2 ==> now.readLog == before.readLog)
    && (mode != 1 ==> now.writeLog == before.writeLog)
    && var readFails := AnyFails(now.readLog[|before.readLog|..]);
    && var writeFails := AnyFails(now.writeLog[|before.writeLog|..]);
    && (r.Err? <==> if mode == 1 then writeFails else mode == 2 && (readFails || Parse(ObfsKey(), stream).Err?))
    && (r.Err? && mode == 1 ==> EndsIn(r.error, now.writeLog))
    && (r.Err? && mode == 2 ==>
          if readFails then r.error == Broken else r.error == ErrorOf(Parse(ObfsKey(), stream).error))
  }

  /** The rest of it: two fresh copies between the same streams, each starting
      where its streams now stand. */
  method StartCopies(a: Stream, b: Stream, aStore: Store, bStore: Store, mode: nat, brutal: bool)
    returns (relay: BidiCopy)
    requires a.Readable() && a.Writable() && !a.shut && b.Readable() && b.Writable() && !b.shut && a != b
    requires aStore.Slice? && bStore.Slice? ==> aStore.data != bStore.data
    ensures relay.Valid() && relay.a == a && relay.b == b && relay.brutal == brutal
    ensures Copies(relay.aToB, aStore, mode, a.rd, |b.written|, b.flushed)
    ensures Copies(relay.bToA, bStore, mode, b.rd, |a.written|, a.flushed)
  {
    hide Transfer.Valid, CopyBuffer.Abs, CopyBuffer.Cfg;
    var aBuf := new CopyBuffer(aStore, mode);
    var bBuf := new CopyBuffer(bStore, mode);
    var aToB := new Transfer(aBuf, a, b);
    assert bBuf !in aToB.Memory();
    label L:
    var bToA := new Transfer(bBuf, b, a);
    assert forall o: object | o in aToB.Memory() :: unchanged@L(o);
    relay := new BidiCopy(a, b, aToB, bToA, brutal);
  }

  /** `bidi_copy_buf` up to its last await: the exchange, then the copies that
      `BidiCopy.Poll` drives. */
  method BidiCopyBuf(a: Stream, b: Stream, aStore: Store, bStore: Store, mode: nat, brutal: bool, seed: nat)
    returns (r: Result<BidiCopy, IoError>)
    requires a.Readable() && a.Writable() && !a.shut && b.Readable() && b.Writable() && !b.shut && a != b
    requires aStore.Slice? && bStore.Slice? ==> aStore.data != bStore.data
    modifies a`rd, a`readLog, a`asked, b`written, b`writeLog, b`offered
    ensures Excused(r, mode, old(MarkOf(a, b)), MarkOf(a, b), old(a.Unread()))
    ensures a.Readable() && b.Writable() && old(a.rd) <= a.rd && (mode != 2 ==> a.rd == old(a.rd))
    ensures r.Ok? ==> r.value.Valid() && r.value.a == a && r.value.b == b && r.value.brutal == brutal
    ensures r.Ok? ==> Copies(r.value.aToB, aStore, mode, a.rd, |b.written|, b.flushed)
    ensures r.Ok? ==> Copies(r.value.bToA, bStore, mode, b.rd, |a.written|, a.flushed)
    ensures r.Ok? ==> b.written == old(b.written) + PrefixOf(mode, seed)
    ensures r.Ok? && mode == 2 ==> Parse(ObfsKey(), old(a.Unread())) == Ok(a.Unread())
  {
    hide Generate, Parse, LcgDraws, ObfsKey, BidiCopy.Valid, Transfer.Valid;
    var exchanged := ExchangePrefix(a, b, mode, seed);
    if exchanged.Err? {
      return Err(exchanged.error);
    }
    var relay := StartCopies(a, b, aStore, bStore, mode, brutal);
    return Ok(relay);
  }

  /** What a relay in the given mode puts on the wire before the data. */
  function PrefixOf(mode: nat, seed: nat): seq<byte> {
    if mode == 1 then Generate(ObfsKey(), LcgDraws(seed)) else []
  }

  /** A fresh copy through `store` that starts at these stream positions. */
  ghost predicate Copies(t: Transfer, store: Store, mode: nat, r0: nat, w0: nat, flushed: nat)
    reads t, t.buf
  {
    && t.state.Running? && !t.failed
    && t.buf.store == store && t.buf.mode == mode
    && t.buf.r0 == r0 && t.buf.w0 == w0 && t.buf.backlog == w0 - flushed
  }

  /** The prefix leaves with the first data. Behind `wire`, of which `flushed` bytes
      were flushed when the mode-1 relay started, the forward direction wrote its
      prefix; while it waits for its reader all of the wire is flushed if it has
      written data, and otherwise nothing of the prefix is. Once it is done all of
      the wire is flushed even if there was no data. */
  lemma PrefixWaitsForData(client: BidiCopy, seed: nat, wire: seq<byte>, flushed: nat)
    requires client.Valid() && flushed <= |wire|
    // as BidiCopyBuf leaves it
    requires client.b.written[..client.aToB.buf.w0] == wire + PrefixOf(1, seed)
    requires client.aToB.buf.backlog == client.aToB.buf.w0 - flushed
    ensures client.aToB.Waiting() ==>
      client.b.flushed == if client.b.written == wire + PrefixOf(1, seed) then flushed else |client.b.written|
    ensures client.aToB.state.Done? && !client.aToB.failed ==> client.b.flushed == |client.b.written|
  {
    hide Generate, LcgDraws, ObfsKey;
    var t, b := client.aToB, client.b;
    assert t.buf.w0 <= |b.written|;
    hide Transfer.Valid;
    assert b.written == b.written[..t.buf.w0] + b.written[t.buf.w0..];
    if t.Waiting() {
      t.WaitingMeansFlushed(client.a, b);
    } else if t.state.Done? && !t.failed {
      t.DoneMeansDelivered(client.a, b);
    }
  }

  // ---- the key on the wire ----

  lemma KeyChars()
    ensures CharByte('h') == 0x68 && CharByte('o') == 0x6F && CharByte('r') == 0x72 && CharByte('a') == 0x61
  {
    hide CharByte;
    CharCode('h', 0x68);
    CharCode('o', 0x6F);
    CharCode('r', 0x72);
    CharCode('a', 0x61);
  }

  lemma KeyStarts()
    ensures |ObfsKey()| == 23
    ensures ObfsKey()[0] == 0x68 && ObfsKey()[1] == 0x6F && ObfsKey()[2] == 0x6F
    ensures ObfsKey()[3] == 0x72 && ObfsKey()[4] == 0x61
  {
    var key := "hoorayhug_obfs_key_2024";
    assert ObfsKey() == Text(key);
    KeyChars();
    hide Text, CharByte;
    TextAt(key, 0);
    TextAt(key, 1);
    TextAt(key, 2);
    TextAt(key, 3);
    TextAt(key, 4);
  }

  lemma TwelveInTheClear(h: seq<byte>)
    requires h == [0x31, 0x32, 0, 0, 0]
    ensures Digits(h) == [0x31, 0x32] && Value([0x31, 0x32]) == 12 && Accepted([0x31, 0x32])
  {
    assert h[1..] == [0x32, 0, 0, 0];
    assert h[1..][1..] == [0, 0, 0];
    assert [0x31, 0x32][..1] == [0x31];
    assert Digits([0]) == [];
    assert Digits([0, 0]) == [];
    assert Digits([0, 0, 0]) == [];
    assert Digits([0x32, 0, 0, 0]) == [0x32] + Digits([0, 0, 0]);
    ValueOfTwo([0x31, 0x32]);
  }

  /** A prefix as a client sends it, in raw bytes: the digits "12" and three zero
      fillers under the key, then twelve bytes of garbage. */
  lemma GenuineClient(garbage: seq<byte>, rest: seq<byte>)
    requires |garbage| == 12
    ensures IsPrefix(ObfsKey(), [0x59, 0x5D, 0x6F, 0x72, 0x61] + garbage)
    ensures Parse(ObfsKey(), [0x59, 0x5D, 0x6F, 0x72, 0x61] + garbage + rest) == Ok(rest)
  {
    KeyStarts();
    hide ObfsKey;
    var p := [0x59, 0x5D, 0x6F, 0x72, 0x61] + garbage;
    PrefixOnRawBytes(ObfsKey(), p);
    var clear := Unmasked(ObfsKey(), p);
    assert 1 % 23 == 1;
    assert clear[0] == 0x31 && clear[1] == 0x32 && clear[2] == 0 && clear[3] == 0 && clear[4] == 0;
    TwelveInTheClear(clear[..5]);
    ParseIsExact(ObfsKey(), p + rest, rest);
  }

  // ---- two relays back to back ----

  lemma TransformTwice(s: seq<byte>, c: Config, d: Config)
    requires c.obfs == d.obfs
    ensures Transform(d, Transform(c, s)) == s
  {
    if c.obfs {
      XorAllTwice(s, OBFS_XOR);
    }
  }

  lemma TransformPrefix(c: Config, p: seq<byte>, s: seq<byte>)
    requires p <= s
    ensures Transform(c, p) <= Transform(c, s)
  {
    TransformAppend(c, p, s[|p|..]);
    assert s == p + s[|p|..];
  }

  /** What the near side sends through an obfuscating relay, over the wire, and
      through a de-obfuscating one arrives unchanged and complete once both
      copies report success: for all data, draws, keys, buffer sizes and all
      schedules of short reads, short writes and pending polls. */
  lemma ForwardIdentity(data: seq<byte>, key: seq<byte>, u: Draws,
      clientRoom: nat, clientBacklog: nat, clientOps: seq<Op>, serverRoom: nat, serverBacklog: nat, serverOps: seq<Op>)
    requires clientRoom > 0 && serverRoom > 0
    requires var client := Run(Config(data, clientRoom, true, clientBacklog), clientOps);
      client.Some? && Finished(client.value)
    ensures var client := Run(Config(data, clientRoom, true, clientBacklog), clientOps);
      var parsed := Parse(key, Generate(key, u) + client.value.sent);
      && parsed.Ok?
      && var server := Run(Config(parsed.value, serverRoom, true, serverBacklog), serverOps);
         server.Some? && Finished(server.value) ==> server.value.sent == data
  {
    hide Parse, Generate, RunFrom, Transform;
    var c := Config(data, clientRoom, true, clientBacklog);
    var wire := Run(c, clientOps).value.sent;
    var d := Config(wire, serverRoom, true, serverBacklog);
    FinishedMeansDelivered(c, clientOps);
    RoundTrip(key, u, wire);
    TransformTwice(data, c, d);
    if Run(d, serverOps).Some? && Finished(Run(d, serverOps).value) {
      FinishedMeansDelivered(d, serverOps);
    }
  }

  /** The way back carries no prefix and is the identity as well. */
  lemma BackwardIdentity(data: seq<byte>,
      serverRoom: nat, serverBacklog: nat, serverOps: seq<Op>, clientRoom: nat, clientBacklog: nat, clientOps: seq<Op>)
    requires clientRoom > 0 && serverRoom > 0
    requires var server := Run(Config(data, serverRoom, true, serverBacklog), serverOps);
      && server.Some? && Finished(server.value)
      && var client := Run(Config(server.value.sent, clientRoom, true, clientBacklog), clientOps);
         client.Some? && Finished(client.value)
    ensures var wire := Run(Config(data, serverRoom, true, serverBacklog), serverOps).value.sent;
      Run(Config(wire, clientRoom, true, clientBacklog), clientOps).value.sent == data
  {
    hide RunFrom, Transform;
    var c := Config(data, serverRoom, true, serverBacklog);
    var wire := Run(c, serverOps).value.sent;
    var d := Config(wire, clientRoom, true, clientBacklog);
    FinishedMeansDelivered(c, serverOps);
    FinishedMeansDelivered(d, clientOps);
    TransformTwice(data, c, d);
  }

  /** At every moment before that, whatever part of the wire has arrived: the
      server never takes the client for a probe, and what it has passed on is a
      prefix of what the near side sent. */
  lemma InFlightSafety(data: seq<byte>, key: seq<byte>, u: Draws,
      clientRoom: nat, clientBacklog: nat, clientOps: seq<Op>, arrived: seq<byte>)
    requires Run(Config(data, clientRoom, true, clientBacklog), clientOps).Some?
    requires arrived <= Generate(key, u) + Run(Config(data, clientRoom, true, clientBacklog), clientOps).value.sent
    ensures Parse(key, arrived) != Err(Probe) && Parse(key, arrived) != Err(LengthAnomaly)
    ensures Parse(key, arrived).Ok? <==> |arrived| >= |Generate(key, u)|
    ensures forall serverRoom: nat, serverBacklog: nat, serverOps |
        Parse(key, arrived).Ok?
        && Run(Config(Parse(key, arrived).value, serverRoom, true, serverBacklog), serverOps).Some? ::
      Run(Config(Parse(key, arrived).value, serverRoom, true, serverBacklog), serverOps).value.sent <= data
  {
    hide RunFrom, Transform;
    var c := Config(data, clientRoom, true, clientBacklog);
    var prefix, sent := Generate(key, u), Run(c, clientOps).value.sent;
    PartialPrefix(key, u, sent, arrived);
    forall serverRoom: nat, serverBacklog: nat, serverOps |
        Parse(key, arrived).Ok?
        && Run(Config(Parse(key, arrived).value, serverRoom, true, serverBacklog), serverOps).Some?
      ensures Run(Config(Parse(key, arrived).value, serverRoom, true, serverBacklog), serverOps).value.sent <= data
    {
      var rest := Parse(key, arrived).value;
      var d := Config(rest, serverRoom, true, serverBacklog);
      SentIsPrefix(c, clientOps);
      SentIsPrefix(d, serverOps);
      TransformPrefix(d, rest, Transform(c, data));
      TransformTwice(data, c, d);
    }
  }

  lemma PartialPrefix(key: seq<byte>, u: Draws, sent: seq<byte>, arrived: seq<byte>)
    requires arrived <= Generate(key, u) + sent
    ensures |arrived| < |Generate(key, u)| ==> Parse(key, arrived) == Err(Truncated)
    ensures |arrived| >= |Generate(key, u)| ==> Parse(key, arrived).Ok? && Parse(key, arrived).value <= sent
  {
    hide Generate;
    var prefix := Generate(key, u);
    GeneratedIsPrefix(key, u);
    AcceptedLengths(Digits(Mask(key, prefix[..5])));
    if |arrived| >= 5 {
      assert arrived[..5] == prefix[..5];
    }
    if |arrived| >= |prefix| {
      assert arrived[|prefix|..] == (prefix + sent)[|prefix|..|arrived|] == sent[..|arrived| - |prefix|];
    }
  }

  /** A direction through a slice with room that has closed its writer. */
  ghost predicate Delivered(t: Transfer, mode: nat)
    reads t, t.buf
  {
    && t.state.Done? && !t.failed
    && t.buf.store.Slice? && t.buf.mode == mode && t.buf.Room() > 0
  }

  /** The same on the running objects, whatever their streams had carried before:
      `wire` had gone over the wire when the mode-1 relay started, and the mode-2
      relay started where the stream holds what was sent since. Once both forward
      directions are done, the far side was written exactly what the near side
      held. */
  lemma RelaysDeliver(client: BidiCopy, server: BidiCopy, seed: nat, wire: seq<byte>, start: nat)
    requires client.Valid() && server.Valid()
    requires Delivered(client.aToB, 1) && Delivered(server.aToB, 2)
    // as BidiCopyBuf leaves them
    requires client.b.written[..client.aToB.buf.w0] == wire + PrefixOf(1, seed)
    requires start <= |server.a.input| && server.aToB.buf.r0 <= |server.a.input|
    requires Parse(ObfsKey(), server.a.input[start..]) == Ok(server.a.input[server.aToB.buf.r0..])
    // the wire between them
    requires server.a.input[start..] == client.b.written[|wire|..]
    ensures server.b.written[server.aToB.buf.w0..] == client.a.input[client.aToB.buf.r0..]
  {
    hide Generate, Parse, Transfer.Valid, LcgDraws, ObfsKey;
    client.aToB.DoneMeansDelivered(client.a, client.b);
    server.aToB.DoneMeansDelivered(server.a, server.b);
    var w0 := client.aToB.buf.w0;
    var sent := client.b.written[w0..];
    assert client.b.written == wire + PrefixOf(1, seed) + sent;
    assert client.b.written[|wire|..] == PrefixOf(1, seed) + sent;
    RoundTrip(ObfsKey(), LcgDraws(seed), sent);
    XorAllTwice(client.a.input[client.aToB.buf.r0..], OBFS_XOR);
  }

  /** And the way back: what the far side held reaches the near side. */
  lemma RelaysReturn(client: BidiCopy, server: BidiCopy)
    requires client.Valid() && server.Valid()
    requires Delivered(server.bToA, 2) && Delivered(client.bToA, 1)
    requires client.b.input[client.bToA.buf.r0..] == server.a.written[server.bToA.buf.w0..]
    ensures client.a.written[client.bToA.buf.w0..] == server.b.input[server.bToA.buf.r0..]
  {
    hide Transfer.Valid;
    server.bToA.DoneMeansDelivered(server.b, server.a);
    client.bToA.DoneMeansDelivered(client.b, client.a);
    XorAllTwice(server.b.input[server.bToA.buf.r0..], OBFS_XOR);
  }
}
