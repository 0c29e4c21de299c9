/** One relay direction as a state machine over stream operations.

    `Step` says which operation the code performs next in a state and what each
    outcome of it does: the copy loop until its final flush, then the shutdown
    of the writer. Every outcome a poll can have (short, pending, failed) is a
    different `Op`, so a sequence of ops is one scheduling of one run. */
module CopyMachine {
  import opened Bytes
  import opened Wrappers
  import opened Streams

  const OBFS_XOR: byte := 0x5A

  /** What is fixed during a run: all the source will ever deliver before its
      end, the room in the buffer, whether the buffer XORs what it reads, and how
      many bytes the sink held unflushed before the copy began. */
  datatype Config = Config(input: seq<byte>, capacity: nat, obfs: bool, backlog: nat)

  function Transform(c: Config, s: seq<byte>): (r: seq<byte>)
    ensures |r| == |s|
  {
    if c.obfs then XorAll(s, OBFS_XOR) else s
  }

  /** Where control is: in the copy loop, flushing because the reader is idle,
      suspended (Pending was returned), or past the copy. */
  datatype Control = Top | IdleFlush | Suspended | Closing | Closed | Failed

  datatype State = State(
    // the copy buffer
    readDone: bool, needFlush: bool, pos: nat, cap: nat, amt: nat,
    // bytes taken from the source, held in the buffer, accepted and flushed by the
    // sink; `flushed` counts from the start of the copy, so the backlog is below 0
    rd: nat, window: seq<byte>, sent: seq<byte>, flushed: int,
    at: Control)

  function Init(c: Config): State {
    State(false, false, 0, 0, 0, 0, [], [], 0 - c.backlog, Suspended)
  }

  function Step(c: Config, s: State, op: Op): Option<State> {
    match s.at
    case Suspended => if op.Resume? then Some(s.(at := Top)) else None
    case Top =>
      if s.pos == s.cap && !s.readDone then StepRead(c, s, op)
      else if s.pos < s.cap then StepWrite(s, op)
      else if s.pos == s.cap then StepFinish(s, op)
      else None
    case IdleFlush => StepIdleFlush(s, op)
    case Closing => StepShutdown(s, op)
    case Closed => None
    case Failed => None
  }

  /** The buffer is empty: read. A reader offered room answers 0 only at its end. */
  function StepRead(c: Config, s: State, op: Op): Option<State> {
    match op
    case Read(n) =>
      if s.rd + n > |c.input| || n > c.capacity then None
      else if n > 0 then
        Some(s.(pos := 0, cap := n, rd := s.rd + n, window := Transform(c, c.input[s.rd..s.rd + n])))
      else if s.rd == |c.input| || c.capacity == 0 then Some(s.(readDone := true))
      else None
    case ReadPending => Some(s.(at := if s.needFlush then IdleFlush else Suspended))
    case ReadErr(_) => Some(s.(at := Failed))
    case _ => None
  }

  /** The buffer holds data: write. Accepting nothing is an error. */
  function StepWrite(s: State, op: Op): Option<State> {
    match op
    case Write(n) =>
      if n > s.cap - s.pos || n > |s.window| then None
      else if n == 0 then Some(s.(at := Failed))
      else Some(s.(pos := s.pos + n, amt := s.amt + n, needFlush := true,
                   sent := s.sent + s.window[..n], window := s.window[n..]))
    case WritePending => Some(s.(at := Suspended))
    case WriteErr(_) => Some(s.(at := Failed))
    case _ => None
  }

  /** The end was seen and everything is written: flush, and the copy is over. */
  function StepFinish(s: State, op: Op): Option<State> {
    match op
    case Flush => Some(s.(flushed := |s.sent|, at := Closing))
    case FlushPending => Some(s.(at := Suspended))
    case FlushErr(_) => Some(s.(at := Failed))
    case _ => None
  }

  function StepIdleFlush(s: State, op: Op): Option<State> {
    match op
    case Flush => Some(s.(flushed := |s.sent|, needFlush := false, at := Suspended))
    case FlushPending => Some(s.(at := Suspended))
    case FlushErr(_) => Some(s.(at := Failed))
    case _ => None
  }

  function StepShutdown(s: State, op: Op): Option<State> {
    match op
    case Shutdown => Some(s.(at := Closed))
    case ShutdownPending => Some(s)
    case ShutdownErr(_) => Some(s.(at := Failed))
    case _ => None
  }

  function RunFrom(c: Config, s: State, ops: seq<Op>): Option<State> {
    if ops == [] then Some(s) else
      var before := RunFrom(c, s, ops[..|ops| - 1]);
      if before.Some? then Step(c, before.value, ops[|ops| - 1]) else None
  }

  function Run(c: Config, ops: seq<Op>): Option<State> {
    RunFrom(c, Init(c), ops)
  }

  lemma {:induction false} RunAppend(c: Config, s: State, first: seq<Op>, second: seq<Op>)
    ensures RunFrom(c, s, first + second)
         == if RunFrom(c, s, first).Some? then RunFrom(c, RunFrom(c, s, first).value, second) else None
  {
    if second == [] {
      assert first + second == first;
    } else {
      var last := |second| - 1;
      RunAppend(c, s, first, second[..last]);
      assert (first + second)[..|first + second| - 1] == first + second[..last];
    }
  }

  lemma EmptyRun(c: Config, s: State)
    ensures RunFrom(c, s, []) == Some(s)
  {
  }

  lemma RunThen(c: Config, s: State, ops: seq<Op>, op: Op)
    requires RunFrom(c, s, ops).Some?
    ensures RunFrom(c, s, ops + [op]) == Step(c, RunFrom(c, s, ops).value, op)
  {
    assert (ops + [op])[..|ops|] == ops;
  }

  // ---- what the streams see of a run ----

  function ReadPart(op: Op): seq<Op> {
    if op.Read? || op.ReadPending? || op.ReadErr? then [op] else []
  }

  function WritePart(op: Op): seq<Op> {
    if op.Resume? then [] else if ReadPart(op) == [] then [op] else []
  }

  /** The operations on the source. */
  function Reads(ops: seq<Op>): seq<Op> {
    if ops == [] then [] else Reads(ops[..|ops| - 1]) + ReadPart(ops[|ops| - 1])
  }

  /** The operations on the sink. */
  function Writes(ops: seq<Op>): seq<Op> {
    if ops == [] then [] else Writes(ops[..|ops| - 1]) + WritePart(ops[|ops| - 1])
  }

  lemma PartsThen(ops: seq<Op>, op: Op)
    ensures Reads(ops + [op]) == Reads(ops) + ReadPart(op)
    ensures Writes(ops + [op]) == Writes(ops) + WritePart(op)
  {
    assert (ops + [op])[..|ops|] == ops;
  }

  lemma {:induction false} PartsAppend(first: seq<Op>, second: seq<Op>)
    ensures Reads(first + second) == Reads(first) + Reads(second)
    ensures Writes(first + second) == Writes(first) + Writes(second)
  {
    if second == [] {
      assert first + second == first;
    } else {
      var init, op := second[..|second| - 1], second[|second| - 1];
      assert second == init + [op];
      PartsAppend(first, init);
      PartsAppendThen(first, init, op);
    }
  }

  lemma PartsAppendThen(first: seq<Op>, init: seq<Op>, op: Op)
    requires Reads(first + init) == Reads(first) + Reads(init)
    requires Writes(first + init) == Writes(first) + Writes(init)
    ensures Reads(first + (init + [op])) == Reads(first) + Reads(init + [op])
    ensures Writes(first + (init + [op])) == Writes(first) + Writes(init + [op])
  {
    hide *;
    Regroup(first, init, [op]);
    PartsThen(first + init, op);
    PartsThen(init, op);
    Regroup(Reads(first), Reads(init), ReadPart(op));
    Regroup(Writes(first), Writes(init), WritePart(op));
  }

  lemma Regroup(a: seq<Op>, b: seq<Op>, c: seq<Op>)
    ensures a + b + c == a + (b + c)
  {
  }

  lemma OnePollThen(ops: seq<Op>, op: Op)
    requires OnePoll(ops) && !op.Resume? && !IsShutdown(op)
    ensures OnePoll(ops + [op])
  {
  }

  predicate IsShutdown(op: Op) {
    op.Shutdown? || op.ShutdownPending? || op.ShutdownErr?
  }

  /** The operations of one poll of the copy. */
  predicate OnePoll(ops: seq<Op>) {
    ops != [] && ops[0] == Resume && forall i | 0 < i < |ops| :: !ops[i].Resume? && !IsShutdown(ops[i])
  }

  predicate AnyPending(ops: seq<Op>) {
    exists op | op in ops :: IsPending(op)
  }

  predicate AnyFails(ops: seq<Op>) {
    exists op | op in ops :: Fails(op)
  }

  lemma AnyThen(ops: seq<Op>, op: Op)
    ensures AnyPending(ops + [op]) <==> AnyPending(ops) || IsPending(op)
    ensures AnyFails(ops + [op]) <==> AnyFails(ops) || Fails(op)
  {
    assert op in ops + [op];
    assert forall x | x in ops :: x in ops + [op];
  }

  /** A poll of the copy fails exactly if a stream failed it, and is suspended
      exactly if a stream was not ready. */
  lemma {:induction false} PollIsDue(c: Config, s0: State, ops: seq<Op>)
    requires s0.at == Suspended && OnePoll(ops) && RunFrom(c, s0, ops).Some?
    ensures ops != []
    ensures var s := RunFrom(c, s0, ops).value;
      && (s.at == Failed <==> AnyFails(ops))
      && (s.at == Suspended || s.at == IdleFlush <==> AnyPending(ops) && !AnyFails(ops))
      && s.at != Closed
    decreases |ops|
  {
    var last := |ops| - 1;
    if last == 0 {
      assert ops == [Resume] && ops[..0] == [];
    } else {
      var before, op := ops[..last], ops[last];
      PollIsDue(c, s0, before);
      AnyThen(before, op);
      assert ops == before + [op];
      StepIsDue(c, RunFrom(c, s0, before).value, op, AnyPending(before), AnyFails(before));
    }
  }

  lemma StepIsDue(c: Config, s: State, op: Op, pending: bool, fails: bool)
    requires Step(c, s, op).Some? && !op.Resume? && !IsShutdown(op) && s.at != Closed
    requires s.at == Failed <==> fails
    requires s.at == Suspended || s.at == IdleFlush <==> pending && !fails
    ensures var t := Step(c, s, op).value;
      && (t.at == Failed <==> fails || Fails(op))
      && (t.at == Suspended || t.at == IdleFlush <==> (pending || IsPending(op)) && !(fails || Fails(op)))
      && t.at != Closed
  {
    hide Transform;
  }

  // ---- what every run keeps ----

  predicate Finished(s: State) {
    s.at == Closing || s.at == Closed
  }

  /** How far the sink is flushed when the copy has no flush due: not at all before
      its first write, completely after. */
  function Settled(c: Config, s: State): int {
    if s.sent == [] then 0 - c.backlog else |s.sent|
  }

  ghost predicate Inv(c: Config, s: State) {
    && s.rd <= |c.input|
    && s.sent + s.window == Transform(c, c.input[..s.rd])
    && s.amt == |s.sent|
    && s.pos <= s.cap <= c.capacity
    && |s.window| == s.cap - s.pos
    && 0 - c.backlog <= s.flushed <= |s.sent|
    && (s.needFlush ==> s.sent != [])
    && (!s.needFlush ==> s.flushed == Settled(c, s) || ((Finished(s) || s.at == Failed) && s.flushed == |s.sent|))
    && (s.readDone ==> s.window == [] && (s.rd == |c.input| || c.capacity == 0))
    && (s.at == IdleFlush ==> s.needFlush && s.pos == s.cap && !s.readDone)
    && (Finished(s) ==> s.readDone && s.flushed == |s.sent|)
  }

  lemma TransformAppend(c: Config, a: seq<byte>, b: seq<byte>)
    ensures Transform(c, a + b) == Transform(c, a) + Transform(c, b)
  {
    XorAllAppend(a, b, OBFS_XOR);
  }

  lemma StepKeepsInv(c: Config, s: State, op: Op)
    requires Inv(c, s) && Step(c, s, op).Some?
    ensures Inv(c, Step(c, s, op).value)
  {
    if op.Read? && op.n > 0 {
      ReadKeepsInv(c, s, op);
    } else if op.Write? && op.n > 0 {
      WriteKeepsInv(c, s, op);
    } else {
      hide Transform;
    }
  }

  lemma ReadKeepsInv(c: Config, s: State, op: Op)
    requires Inv(c, s) && Step(c, s, op).Some? && op.Read? && op.n > 0
    ensures Inv(c, Step(c, s, op).value)
  {
    hide Transform;
    var after := Step(c, s, op).value;
    TransformAppend(c, c.input[..s.rd], c.input[s.rd..after.rd]);
    assert c.input[..after.rd] == c.input[..s.rd] + c.input[s.rd..after.rd];
    assert s.window == [];
  }

  lemma WriteKeepsInv(c: Config, s: State, op: Op)
    requires Inv(c, s) && Step(c, s, op).Some? && op.Write? && op.n > 0
    ensures Inv(c, Step(c, s, op).value)
  {
    hide Transform;
    var after := Step(c, s, op).value;
    assert after.sent + after.window == s.sent + s.window;
  }

  /** Nothing is lost, duplicated or reordered: after any sequence of poll
      outcomes what was accepted, followed by what the buffer still holds, is
      the transformed image of exactly the bytes read. */
  lemma {:induction false} RunConserves(c: Config, ops: seq<Op>)
    requires Run(c, ops).Some?
    ensures Inv(c, Run(c, ops).value)
  {
    if ops != [] {
      RunConserves(c, ops[..|ops| - 1]);
      StepKeepsInv(c, Run(c, ops[..|ops| - 1]).value, ops[|ops| - 1]);
    }
  }

  /** The sink has, at every moment, a prefix of the transformed source. */
  lemma SentIsPrefix(c: Config, ops: seq<Op>)
    requires Run(c, ops).Some?
    ensures Run(c, ops).value.sent <= Transform(c, c.input)
  {
    RunConserves(c, ops);
    var s := Run(c, ops).value;
    TransformAppend(c, c.input[..s.rd], c.input[s.rd..]);
    assert c.input == c.input[..s.rd] + c.input[s.rd..];
    assert s.sent <= s.sent + s.window;
  }

  /** When the copy reports success it reports the exact count, all of it is
      flushed, and it is the whole source if and only if the buffer had room
      for a byte (or there was nothing to copy). */
  lemma FinishedMeansDelivered(c: Config, ops: seq<Op>)
    requires Run(c, ops).Some? && Finished(Run(c, ops).value)
    ensures var s := Run(c, ops).value;
      && s.amt == |s.sent| == s.flushed
      && (s.sent == Transform(c, c.input) <==> c.capacity > 0 || c.input == [])
  {
    RunConserves(c, ops);
    if c.capacity == 0 {
      EmptyBufferReadsNothing(c, ops);
    }
    var s := Run(c, ops).value;
    assert s.window == [] && s.sent + s.window == s.sent;
    assert c.input[..|c.input|] == c.input;
  }

  lemma {:induction false} EmptyBufferReadsNothing(c: Config, ops: seq<Op>)
    requires Run(c, ops).Some? && c.capacity == 0
    ensures Run(c, ops).value.rd == 0
  {
    if ops != [] {
      EmptyBufferReadsNothing(c, ops[..|ops| - 1]);
    }
  }

  /** With a zero-length buffer the end of the stream is misread: one byte of
      input, and the copy still ends in success having sent nothing. */
  lemma EmptyBufferLosesData(b: byte)
    ensures var c := Config([b], 0, false, 0);
      var end := Run(c, [Resume, Read(0), Flush, Shutdown]);
      end.Some? && end.value.at == Closed && end.value.sent == []
  {
    var c := Config([b], 0, false, 0);
    var o1 := [Resume];
    var o2 := o1 + [Read(0)];
    var o3 := o2 + [Flush];
    hide RunFrom, Transform;
    assert RunFrom(c, Init(c), []) == Some(Init(c)) by { EmptyRun(c, Init(c)); }
    assert o1 == [] + [Resume] && [Resume, Read(0), Flush, Shutdown] == o3 + [Shutdown];
    RunThen(c, Init(c), [], Resume);
    RunThen(c, Init(c), o1, Read(0));
    RunThen(c, Init(c), o2, Flush);
    RunThen(c, Init(c), o3, Shutdown);
  }

  /** A direction that waits for its reader has flushed everything once it wrote
      anything, and nothing before that, unless the last thing it tried was a flush
      that is itself pending. */
  lemma {:induction false} IdleMeansFlushed(c: Config, ops: seq<Op>)
    requires Run(c, ops).Some?
    ensures var s := Run(c, ops).value;
      s.at == Suspended && s.pos == s.cap && !s.readDone ==>
        s.flushed == Settled(c, s) || (ops != [] && ops[|ops| - 1] == FlushPending)
  {
    if ops != [] {
      RunConserves(c, ops[..|ops| - 1]);
    }
  }

  // ---- order of operations ----

  lemma {:induction false} RunPrefix(c: Config, ops: seq<Op>, n: nat)
    requires Run(c, ops).Some? && n <= |ops|
    ensures Run(c, ops[..n]).Some?
  {
    if n == |ops| {
      assert ops[..n] == ops;
    } else {
      RunPrefix(c, ops[..|ops| - 1], n);
      assert ops[..|ops| - 1][..n] == ops[..n];
    }
  }

  /** The writer is not shut down before the source's end was seen and all of it
      was written and flushed; once shutdown has been tried nothing but shutdown
      is tried again, and after it has succeeded nothing happens at all. */
  lemma {:induction false} ShutdownProtocol(c: Config, ops: seq<Op>, i: nat)
    requires Run(c, ops).Some? && i < |ops| && IsShutdown(ops[i])
    ensures Run(c, ops[..i]).Some?
    ensures var s := Run(c, ops[..i]).value;
      && Read(0) in ops[..i]
      && s.window == [] && s.flushed == |s.sent| == s.amt
      && (c.capacity > 0 ==> s.sent == Transform(c, c.input))
    ensures forall j | i < j < |ops| :: IsShutdown(ops[j])
    ensures ops[i] == Shutdown ==> i == |ops| - 1
  {
    RunPrefix(c, ops, i);
    RunPrefix(c, ops, i + 1);
    assert ops[..i + 1][..i] == ops[..i];
    FinishedMeansDelivered(c, ops[..i]);
    RunConserves(c, ops[..i]);
    EndWasSeen(c, ops[..i]);
    OnlyShutdownFollows(c, ops, i);
  }

  lemma {:induction false} EndWasSeen(c: Config, ops: seq<Op>)
    requires Run(c, ops).Some? && Run(c, ops).value.readDone
    ensures Read(0) in ops
  {
    var last := |ops| - 1;
    if !(Run(c, ops[..last]).value.readDone) {
      assert ops[last] == Read(0);
    } else {
      EndWasSeen(c, ops[..last]);
    }
  }

  lemma {:induction false} OnlyShutdownFollows(c: Config, ops: seq<Op>, i: nat)
    requires Run(c, ops).Some? && i < |ops| && IsShutdown(ops[i])
    ensures forall j | i < j < |ops| :: IsShutdown(ops[j])
    ensures ops[i] == Shutdown ==> i == |ops| - 1
    ensures Run(c, ops).value.at in {Closing, Closed, Failed}
    ensures Run(c, ops).value.at == Closed <==> ops[|ops| - 1] == Shutdown
  {
    var last := |ops| - 1;
    if i < last {
      OnlyShutdownFollows(c, ops[..last], i);
    }
  }

  // ---- progress ----

  predicate IsSuccess(op: Op) {
    op.Read? || op.Flush? || (op.Write? && op.n > 0)
  }

  function Successes(ops: seq<Op>): nat {
    if ops == [] then 0 else
      Successes(ops[..|ops| - 1]) + if IsSuccess(ops[|ops| - 1]) then 1 else 0
  }

  /** An upper bound on the successful operations the copy still needs. */
  function Remaining(c: Config, s: State): int {
    if Finished(s) || s.at == Failed then 0 else
      3 * (|c.input| - s.rd) + 2 * |s.window| + (if s.needFlush then 1 else 0) + (if s.readDone then 0 else 1) + 1
  }

  lemma StepSpends(c: Config, s: State, op: Op)
    requires Inv(c, s) && Step(c, s, op).Some?
    ensures Remaining(c, Step(c, s, op).value) + (if IsSuccess(op) then 1 else 0) <= Remaining(c, s)
  {
    hide Transform;
  }

  /** Copying N bytes takes at most 3N + 2 successful reads, writes and flushes. */
  lemma {:induction false} CopyIsBounded(c: Config, ops: seq<Op>)
    requires Run(c, ops).Some?
    ensures Successes(ops) + Remaining(c, Run(c, ops).value) <= 3 * |c.input| + 2
    ensures Successes(ops) <= 3 * |c.input| + 2
  {
    hide Step, Remaining;
    RunConserves(c, ops);
    assert Remaining(c, Run(c, ops).value) >= 0 && Remaining(c, Init(c)) == 3 * |c.input| + 2 by {
      RemainingBounds(c, Run(c, ops).value);
    }
    if ops != [] {
      var before := Run(c, ops[..|ops| - 1]).value;
      CopyIsBounded(c, ops[..|ops| - 1]);
      RunConserves(c, ops[..|ops| - 1]);
      StepSpends(c, before, ops[|ops| - 1]);
    }
  }

  lemma RemainingBounds(c: Config, s: State)
    requires Inv(c, s)
    ensures Remaining(c, s) >= 0 && Remaining(c, Init(c)) == 3 * |c.input| + 2
  {
  }

  /** The slowest schedule: one byte at a time, with an idle flush after each. */
  function SlowOps(n: nat): (ops: seq<Op>)
    ensures |ops| == 5 * n
  {
    if n == 0 then [] else SlowOps(n - 1) + [Resume, Read(1), Write(1), ReadPending, Flush]
  }

  function SlowState(c: Config, n: nat): State
    requires n <= |c.input|
  {
    if n == 0 then Init(c)
    else State(false, false, 1, 1, n, n, [], Transform(c, c.input[..n]), n, Suspended)
  }

  /** The bound is attained: with room for one byte there is a run over any
      source that needs all 3N + 2 operations. */
  lemma BoundIsTight(c: Config)
    requires c.capacity > 0
    ensures var ops := SlowOps(|c.input|) + [Resume, Read(0), Flush];
      && Run(c, ops).Some? && Run(c, ops).value.at == Closing
      && Successes(ops) == 3 * |c.input| + 2
  {
    hide RunFrom, Successes, SlowOps, Transform;
    var o0 := SlowOps(|c.input|);
    var o1 := o0 + [Resume];
    var o2 := o1 + [Read(0)];
    SlowRun(c, |c.input|);
    RunThen(c, Init(c), o0, Resume); SuccessesThen(o0, Resume);
    RunThen(c, Init(c), o1, Read(0)); SuccessesThen(o1, Read(0));
    RunThen(c, Init(c), o2, Flush); SuccessesThen(o2, Flush);
    assert o0 + [Resume, Read(0), Flush] == o2 + [Flush];
  }

  lemma SuccessesThen(ops: seq<Op>, op: Op)
    ensures Successes(ops + [op]) == Successes(ops) + if IsSuccess(op) then 1 else 0
  {
    assert (ops + [op])[..|ops|] == ops;
  }

  lemma {:induction false} SlowRun(c: Config, n: nat)
    requires c.capacity > 0 && n <= |c.input|
    ensures Run(c, SlowOps(n)) == Some(SlowState(c, n))
    ensures Successes(SlowOps(n)) == 3 * n
  {
    if n > 0 {
      SlowRun(c, n - 1);
      SlowRound(c, SlowOps(n - 1), n);
    }
  }

  lemma SlowRound(c: Config, ops: seq<Op>, n: nat)
    requires c.capacity > 0 && 0 < n <= |c.input|
    requires Run(c, ops) == Some(SlowState(c, n - 1))
    ensures Run(c, ops + [Resume, Read(1), Write(1), ReadPending, Flush]) == Some(SlowState(c, n))
    ensures Successes(ops + [Resume, Read(1), Write(1), ReadPending, Flush]) == Successes(ops) + 3
  {
    hide RunFrom, Successes, Transform;
    var o1 := ops + [Resume];
    var o2 := o1 + [Read(1)];
    var o3 := o2 + [Write(1)];
    var o4 := o3 + [ReadPending];
    assert ops + [Resume, Read(1), Write(1), ReadPending, Flush] == o4 + [Flush];
    RunThen(c, Init(c), ops, Resume); SuccessesThen(ops, Resume);
    RunThen(c, Init(c), o1, Read(1)); SuccessesThen(o1, Read(1));
    RunThen(c, Init(c), o2, Write(1)); SuccessesThen(o2, Write(1));
    RunThen(c, Init(c), o3, ReadPending); SuccessesThen(o3, ReadPending);
    RunThen(c, Init(c), o4, Flush); SuccessesThen(o4, Flush);
    var piece := Transform(c, c.input[n - 1..n]);
    assert piece[..1] == piece && piece[1..] == [];
    TransformAppend(c, c.input[..n - 1], c.input[n - 1..n]);
    assert c.input[..n] == c.input[..n - 1] + c.input[n - 1..n];
    assert Transform(c, c.input[..0]) == [];
  }

  /** No run gets stuck: whatever has happened so far short of an error, a
      reader and writer that now cooperate bring the direction to its end. */
  lemma {:induction false} CanAlwaysComplete(c: Config, ops: seq<Op>) returns (rest: seq<Op>)
    requires Run(c, ops).Some? && Run(c, ops).value.at != Failed && c.capacity > 0
    ensures Run(c, ops + rest).Some? && Run(c, ops + rest).value.at == Closed
    decreases Remaining(c, Run(c, ops).value), Rank(Run(c, ops).value.at)
  {
    hide Step, Inv, Remaining, Rank, Cooperate;
    RunConserves(c, ops);
    var s := Run(c, ops).value;
    if s.at == Closed {
      rest := [];
      assert ops + rest == ops;
    } else {
      var op := Cooperate(c, s);
      CooperationHelps(c, s);
      RunThen(c, Init(c), ops, op);
      var more := CanAlwaysComplete(c, ops + [op]);
      rest := [op] + more;
      assert ops + rest == ops + [op] + more;
    }
  }

  lemma CooperationHelps(c: Config, s: State)
    requires Inv(c, s) && s.at != Closed && s.at != Failed && c.capacity > 0
    ensures var next := Step(c, s, Cooperate(c, s));
      && next.Some? && next.value.at != Failed
      && 0 <= Remaining(c, next.value) <= Remaining(c, s)
      && (Remaining(c, next.value) == Remaining(c, s) ==> Rank(next.value.at) < Rank(s.at))
  {
    hide Transform;
    StepKeepsInv(c, s, Cooperate(c, s));
  }

  function Rank(at: Control): nat {
    match at
    case Suspended => 2
    case Closing => 1
    case _ => 0
  }

  /** The outcome a cooperating stream gives in a state. */
  function Cooperate(c: Config, s: State): Op
    requires Inv(c, s)
  {
    match s.at
    case Suspended => Resume
    case Top =>
      if s.pos < s.cap then Write(s.cap - s.pos)
      else if s.readDone then Flush
      else Read(if c.capacity < |c.input| - s.rd then c.capacity else |c.input| - s.rd)
    case IdleFlush => Flush
    case _ => Shutdown
  }
}
