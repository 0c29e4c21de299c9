/** The copy buffer and its poll loop, over a byte slice or a kernel pipe. */
module CopyBuffer {
  import opened Bytes
  import opened Wrappers
  import opened Streams
  import opened CopyMachine

  datatype Store = Slice(data: array<byte>) | Pipe(size: nat)

  function AtLeastOne(n: nat): nat {
    if n == 0 then 1 else n
  }

  /** How many bytes one read of a slice buffer may fetch. */
  function ChunkLen(maxCap: nat, mode: nat, nanos: nat): (len: nat)
    ensures IsChunk(maxCap, mode, len) && len <= maxCap
    ensures len == 0 <==> maxCap == 0
  {
    if maxCap > 128 && mode != 0 then
      var minBytes := maxCap * 7 / 100;
      var maxBytes := maxCap * 92 / 100;
      AtLeastOne(minBytes + nanos % (maxBytes - minBytes + 1))
    else
      maxCap
  }

  /** 7 to 92 percent of a large obfuscating buffer, or all of any other. */
  predicate IsChunk(maxCap: nat, mode: nat, len: nat) {
    if maxCap > 128 && mode != 0 then 9 <= maxCap * 7 / 100 <= len <= maxCap * 92 / 100 < maxCap else len == maxCap
  }

  /** Every length of the range is asked for at some clock reading. */
  lemma EveryChunkOccurs(maxCap: nat, mode: nat, len: nat) returns (nanos: nat)
    requires IsChunk(maxCap, mode, len)
    ensures ChunkLen(maxCap, mode, nanos) == len && nanos <= len
  {
    nanos := 0;
    if maxCap > 128 && mode != 0 {
      nanos := len - maxCap * 7 / 100;
      Offset(maxCap * 7 / 100, maxCap * 92 / 100, len);
    }
  }

  lemma Offset(minBytes: nat, maxBytes: nat, len: nat)
    requires 0 < minBytes <= len <= maxBytes
    ensures AtLeastOne(minBytes + (len - minBytes) % (maxBytes - minBytes + 1)) == len
  {
  }

  /** What a source and a sink have answered so far. */
  datatype Mark = Mark(readLog: seq<Op>, writeLog: seq<Op>) {
    ghost function Then(op: Op): Mark {
      Mark(readLog + ReadPart(op), writeLog + WritePart(op))
    }

    ghost function After(ops: seq<Op>): Mark {
      Mark(readLog + Reads(ops), writeLog + Writes(ops))
    }

    lemma AfterNothing()
      ensures After([]) == this
    {
    }

    lemma AfterThen(ops: seq<Op>, op: Op)
      ensures After(ops + [op]) == After(ops).Then(op)
    {
      hide Reads, Writes, ReadPart, WritePart;
      PartsThen(ops, op);
      Regroup(readLog, Reads(ops), ReadPart(op));
      Regroup(writeLog, Writes(ops), WritePart(op));
    }

    lemma AfterMore(first: seq<Op>, second: seq<Op>)
      ensures After(first + second) == After(first).After(second)
    {
      hide Reads, Writes;
      PartsAppend(first, second);
      Regroup(readLog, Reads(first), Reads(second));
      Regroup(writeLog, Writes(first), Writes(second));
    }
  }

  ghost function MarkOf(r: Stream, w: Stream): Mark
    reads r`readLog, w`writeLog
  {
    Mark(r.readLog, w.writeLog)
  }

  /** The last operation ended the poll with this error. */
  ghost predicate EndsIn(error: IoError, ops: seq<Op>) {
    ops != [] && Fails(ops[|ops| - 1]) && error == ErrorIn(ops[|ops| - 1])
  }

  ghost predicate ErrorIsOf<T>(p: Poll<T, IoError>, ops: seq<Op>) {
    p.Ready? && p.result.Err? ==> EndsIn(p.result.error, ops)
  }

  /** A poll answers what its streams made it answer: an error exactly if one of
      them failed, and "not now" exactly if one of them did. */
  ghost predicate IsDueTo<T>(p: Poll<T, IoError>, ops: seq<Op>) {
    && (p.Ready? && p.result.Err? <==> AnyFails(ops))
    && (p.Pending? <==> AnyPending(ops) && !AnyFails(ops))
    && ErrorIsOf(p, ops)
  }

  lemma NothingAccepted(p: Poll<nat, IoError>, ops: seq<Op>)
    requires IsDueTo(p, ops) && ops != []
    ensures ops[|ops| - 1] == Write(0) ==> p == Ready(Err(WriteZero))
  {
    assert ops[|ops| - 1] in ops;
  }

  /** Operations that all succeeded do not change what an answer is due to. */
  lemma DueAfter<T>(p: Poll<T, IoError>, first: seq<Op>, second: seq<Op>)
    requires !AnyFails(first) && !AnyPending(first) && IsDueTo(p, second)
    ensures IsDueTo(p, first + second)
  {
    assert forall op :: op in first + second <==> op in first || op in second;
  }

  function ControlAfter(p: Poll<nat, IoError>): Control {
    match p
    case Pending => Suspended
    case Ready(Ok(_)) => Closing
    case Ready(Err(_)) => Failed
  }

  class CopyBuffer {
    var readDone: bool
    var needFlush: bool
    var pos: nat
    var cap: nat
    var amt: nat
    const store: Store
    const mode: nat
    var fifo: seq<byte>      // what the kernel holds for a pipe store

    // where the streams stood when the copy began, and what was unflushed then
    ghost var r0: nat
    ghost var w0: nat
    ghost var backlog: nat

    constructor (store: Store, mode: nat)
      ensures this.store == store && this.mode == mode
      ensures !readDone && !needFlush && pos == cap == amt == 0 && fifo == []
    {
      this.store, this.mode := store, mode;
      readDone, needFlush, pos, cap, amt, fifo := false, false, 0, 0, 0, [];
    }

    ghost function Room(): nat {
      match store
      case Slice(data) => data.Length
      case Pipe(size) => size
    }

    /** The one contract both stores meet: the bytes read but not yet written. */
    ghost function Window(): seq<byte>
      requires store.Slice? ==> pos <= cap <= store.data.Length
      reads this, if store.Slice? then {store.data} else {}
    {
      match store
      case Slice(data) => data[pos..cap]
      case Pipe(_) => fifo
    }

    ghost function Cfg(r: Stream): Config
      requires r0 <= |r.input|
      reads this
    {
      Config(r.input[r0..], Room(), store.Slice? && mode != 0, backlog)
    }

    ghost predicate Consistent(r: Stream, w: Stream)
      reads this, r`rd, w`written, w`flushed
    {
      && r.Readable() && w.Writable()
      && r0 <= r.rd && w0 <= |w.written|
      && pos <= cap <= Room()
      && (store.Pipe? ==> |fifo| == cap - pos)
    }

    ghost function Abs(r: Stream, w: Stream, at: Control): State
      requires Consistent(r, w)
      reads this, r`rd, w`written, w`flushed, if store.Slice? then {store.data} else {}
    {
      State(readDone, needFlush, pos, cap, amt, r.rd - r0, Window(), w.written[w0..], w.flushed - w0, at)
    }

    method PollReadBuf(r: Stream) returns (p: Poll<nat, IoError>)
      requires r.Readable() && pos == cap <= Room() && (store.Pipe? ==> fifo == [])
      modifies this`fifo, r`rd, r`readLog, r`asked, if store.Slice? then {store.data} else {}
      ensures r.Readable() && r.readLog == old(r.readLog) + [ReadOp(p)]
      ensures match store
        case Slice(data) =>
          if data.Length > 128 && mode != 0
          then data.Length * 7 / 100 <= r.asked <= data.Length * 92 / 100 else r.asked == data.Length
        case Pipe(size) => r.asked == size
      ensures p.Ready? && p.result.Ok? ==>
        var n := p.result.value;
        && n <= r.asked <= Room() && r.rd == old(r.rd) + n
        && (n == 0 ==> r.rd == |r.input| || Room() == 0)
        && var taken := r.input[old(r.rd)..r.rd];
          && (store.Slice? ==> store.data[..n] == if mode != 0 then XorAll(taken, OBFS_XOR) else taken)
          && (store.Slice? ==> forall i | 0 <= i < n ::
                store.data[i] == if mode != 0 then taken[i] ^ 0x5A else taken[i])
          && (store.Pipe? ==> fifo == taken)
      ensures !(p.Ready? && p.result.Ok?) ==> r.rd == old(r.rd)
      ensures store.Slice? || !(p.Ready? && p.result.Ok?) ==> fifo == old(fifo)
    {
      hide XorAll, ChunkLen;
      match store
      case Slice(data) =>
        p := ReadSlice(r, data);
      case Pipe(size) =>
        var q := r.PollRead(size);
        if q.Ready? && q.result.Ok? {
          fifo := fifo + q.result.value;
          p := Ready(Ok(|q.result.value|));
        } else if q.Ready? {
          p := Ready(Err(q.result.error));
        } else {
          p := Pending;
        }
    }

    /** Reads one chunk into the front of the slice. */
    method ReadSlice(r: Stream, data: array<byte>) returns (p: Poll<nat, IoError>)
      requires r.Readable()
      modifies r`rd, r`readLog, r`asked, data
      ensures r.Readable() && r.readLog == old(r.readLog) + [ReadOp(p)]
      ensures IsChunk(data.Length, mode, r.asked) && r.asked <= data.Length
      ensures p.Ready? && p.result.Ok? ==>
        var n := p.result.value;
        && n <= r.asked && r.rd == old(r.rd) + n
        && (n == 0 ==> r.rd == |r.input| || data.Length == 0)
        && var taken := r.input[old(r.rd)..r.rd];
          && data[..n] == (if mode != 0 then XorAll(taken, OBFS_XOR) else taken)
          && forall i | 0 <= i < n :: data[i] == if mode != 0 then taken[i] ^ 0x5A else taken[i]
      ensures !(p.Ready? && p.result.Ok?) ==> r.rd == old(r.rd)
    {
      hide XorAll, IsChunk;
      var nanos: nat := *;
      var target := ChunkLen(data.Length, mode, nanos);
      hide ChunkLen;
      var q := r.PollRead(target);
      if q.Ready? && q.result.Ok? {
        var taken := q.result.value;
        FillAndXor(data, taken);
        p := Ready(Ok(|taken|));
      } else if q.Ready? {
        p := Ready(Err(q.result.error));
      } else {
        p := Pending;
      }
    }

    /** The reader fills the front of the slice, which is then XORed in place. */
    method FillAndXor(data: array<byte>, taken: seq<byte>)
      requires |taken| <= data.Length
      modifies data
      ensures data[..|taken|] == if mode != 0 then XorAll(taken, OBFS_XOR) else taken
      ensures forall i | 0 <= i < |taken| :: data[i] == if mode != 0 then taken[i] ^ 0x5A else taken[i]
      ensures data[|taken|..] == old(data[|taken|..])
    {
      forall i | 0 <= i < |taken| {
        data[i] := taken[i];
      }
      if |taken| > 0 && mode != 0 {
        for i := 0 to |taken|
          invariant forall k | 0 <= k < data.Length ::
            data[k] == if k < i then taken[k] ^ OBFS_XOR else if k < |taken| then taken[k] else old(data[k])
        {
          data[i] := data[i] ^ OBFS_XOR;
        }
      }
    }

    method PollWriteBuf(w: Stream) returns (p: Poll<nat, IoError>)
      requires w.Writable() && !w.shut && pos <= cap <= Room() && (store.Pipe? ==> |fifo| == cap - pos)
      modifies this`fifo, w`written, w`writeLog, w`offered
      ensures w.Writable() && w.writeLog == old(w.writeLog) + [WriteOp(p)] && w.offered == old(Window())
      ensures p.Ready? && p.result.Ok? ==>
        var n := p.result.value;
        && n <= cap - pos && w.written == old(w.written) + old(Window())[..n]
        && (store.Pipe? ==> fifo == old(fifo)[n..])
      ensures !(p.Ready? && p.result.Ok?) ==> w.written == old(w.written) && fifo == old(fifo)
    {
      match store
      case Slice(data) =>
        p := w.PollWrite(data[pos..cap]);
      case Pipe(_) =>
        assert fifo[..cap - pos] == fifo;
        p := w.PollWrite(fifo[..cap - pos]);
        if p.Ready? && p.result.Ok? {
          fifo := fifo[p.result.value..];
        }
    }

    /** The operations `ops` lead the machine from `s0` to where this buffer and
        its streams stand, with control at `at`; and they are what the streams
        answered since `m`. */
    ghost predicate Tracks(r: Stream, w: Stream, c: Config, s0: State, m: Mark, ops: seq<Op>, at: Control)
      reads this, r`rd, r`readLog, w`written, w`flushed, w`writeLog, if store.Slice? then {store.data} else {}
    {
      && Consistent(r, w)
      && c == Cfg(r)
      && RunFrom(c, s0, ops) == Some(Abs(r, w, at))
      && Inv(c, Abs(r, w, at))
      && OnePoll(ops) && MarkOf(r, w) == m.After(ops)
    }

    ghost predicate Shows(r: Stream, w: Stream, at: Control, t: State)
      requires Consistent(r, w)
      reads this, r`rd, w`written, w`flushed, if store.Slice? then {store.data} else {}
    {
      && t.readDone == readDone && t.needFlush == needFlush
      && t.pos == pos && t.cap == cap && t.amt == amt && t.rd == r.rd - r0
      && t.window == Window() && t.sent == w.written[w0..]
      && t.flushed == w.flushed - w0 && t.at == at
    }

    /** One more operation is accounted for once the fields show its effect. */
    lemma Follow(r: Stream, w: Stream, c: Config, s0: State, m: Mark, ops: seq<Op>, s: State, op: Op, at: Control)
      requires RunFrom(c, s0, ops) == Some(s) && Inv(c, s) && OnePoll(ops)
      requires Consistent(r, w) && c == Cfg(r) && Step(c, s, op).Some? && !op.Resume? && !IsShutdown(op)
      requires Shows(r, w, at, Step(c, s, op).value) && MarkOf(r, w) == m.After(ops).Then(op)
      ensures Tracks(r, w, c, s0, m, ops + [op], at)
    {
      hide Inv, Step, RunFrom, OnePoll, IsShutdown, Mark.After, Mark.Then;
      RunThen(c, s0, ops, op);
      StepKeepsInv(c, s, op);
      m.AfterThen(ops, op);
      OnePollThen(ops, op);
    }

    /** Copies until something is pending, fails, or the source is exhausted.
        Whatever the streams answer, the call is a run of the machine: it
        performs operations, at least one, in exactly the order that `Step`
        allows, each of them answered by the streams in this very call, and reports
        how that run ended: it fails exactly if a stream failed it, and gives way
        exactly if a stream was not ready. */
    method PollCopy(r: Stream, w: Stream) returns (p: Poll<nat, IoError>, ghost ops: seq<Op>)
      requires Consistent(r, w) && Inv(Cfg(r), Abs(r, w, Suspended)) && !w.shut && r != w
      modifies this, r`rd, r`readLog, r`asked, w`written, w`flushed, w`writeLog, w`offered
      modifies if store.Slice? then {store.data} else {}
      ensures unchanged(this`r0, this`w0, this`backlog) && old(w.written) <= w.written
      ensures Tracks(r, w, old(Cfg(r)), old(Abs(r, w, Suspended)), old(MarkOf(r, w)), ops, ControlAfter(p))
      ensures IsDueTo(p, ops) && (ops[|ops| - 1] == Write(0) ==> p == Ready(Err(WriteZero)))
      ensures p.Ready? && p.result.Ok? ==> p.result.value == amt
    {
      hide RunFrom, Inv, Step, Window, OnePoll, AnyPending, AnyFails;
      ghost var c, s0, m := Cfg(r), Abs(r, w, Suspended), MarkOf(r, w);
      p, ops := Loop(r, w, c, s0, m);
      PollIsDue(c, s0, ops);
      NothingAccepted(p, ops);
    }

    method Loop(r: Stream, w: Stream, ghost c: Config, ghost s0: State, ghost m: Mark)
      returns (p: Poll<nat, IoError>, ghost ops: seq<Op>)
      requires Consistent(r, w) && Inv(Cfg(r), Abs(r, w, Suspended)) && !w.shut && r != w
      requires c == Cfg(r) && s0 == Abs(r, w, Suspended) && m == MarkOf(r, w)
      modifies this, r`rd, r`readLog, r`asked, w`written, w`flushed, w`writeLog, w`offered
      modifies if store.Slice? then {store.data} else {}
      ensures unchanged(this`r0, this`w0, this`backlog) && old(w.written) <= w.written
      ensures Tracks(r, w, c, s0, m, ops, ControlAfter(p)) && ErrorIsOf(p, ops)
      ensures p.Ready? && p.result.Ok? ==> p.result.value == amt
    {
      hide RunFrom, Inv, Step, Window, OnePoll, Mark.After, ErrorIsOf;
      ops := [Resume];
      Enter(r, w, c, s0, m);
      while true
        invariant unchanged(this`r0, this`w0, this`backlog) && old(w.written) <= w.written
        invariant Tracks(r, w, c, s0, m, ops, Top)
        decreases |r.input| - r.rd, if readDone then 0 else 1, cap - pos
      {
        var stop: Option<Poll<nat, IoError>>;
        if pos == cap && !readDone {
          stop, ops := ReadMore(r, w, c, s0, m, ops);
          if stop.Some? {
            return stop.value, ops;
          }
        }
        stop, ops := WriteOut(r, w, c, s0, m, ops);
        if stop.Some? {
          return stop.value, ops;
        }
        if pos == cap && readDone {
          p, ops := Finish(r, w, c, s0, m, ops);
          return;
        }
      }
    }

    lemma Enter(r: Stream, w: Stream, c: Config, s0: State, m: Mark)
      requires Consistent(r, w) && c == Cfg(r) && s0 == Abs(r, w, Suspended) && Inv(c, s0)
      requires m == MarkOf(r, w)
      ensures Tracks(r, w, c, s0, m, [Resume], Top)
    {
      hide Inv;
      assert RunFrom(c, s0, []) == Some(s0);
      RunThen(c, s0, [], Resume);
      StepKeepsInv(c, s0, Resume);
      assert [] + [Resume] == [Resume];
      PartsThen([], Resume);
    }

    /** The first part of the loop body: refill the empty buffer, or flush and
        give way when the reader has nothing. */
    method ReadMore(r: Stream, w: Stream, ghost c: Config, ghost s0: State, ghost m: Mark, ghost ops0: seq<Op>)
      returns (stop: Option<Poll<nat, IoError>>, ghost ops: seq<Op>)
      requires Tracks(r, w, c, s0, m, ops0, Top) && !w.shut && r != w && pos == cap && !readDone
      modifies this`readDone, this`needFlush, this`pos, this`cap, this`fifo
      modifies r`rd, r`readLog, r`asked, w`flushed, w`writeLog
      modifies if store.Slice? then {store.data} else {}
      ensures Tracks(r, w, c, s0, m, ops, if stop.None? then Top else ControlAfter(stop.value)) && ops0 <= ops
      ensures stop.Some? ==> !(stop.value.Ready? && stop.value.result.Ok?) && ErrorIsOf(stop.value, ops)
      ensures stop.None? ==> if readDone then r.rd == old(r.rd) else r.rd > old(r.rd)
    {
      hide RunFrom, Inv, StepWrite, StepFinish, StepShutdown, StepIdleFlush, OnePoll, Mark.After, IsChunk, XorAll;
      ghost var s := Abs(r, w, Top);
      WindowLength(r, w);
      var q := PollReadBuf(r);
      if !(q.Ready? && q.result.Ok?) {
        stop, ops := Stall(r, w, c, s0, m, ops0, s, q);
        return;
      }
      var n := q.result.value;
      ops := ops0 + [Read(n)];
      assert c.input[s.rd..s.rd + n] == r.input[old(r.rd)..r.rd];
      TakeIn(r, w, c, s0, m, ops0, s, n);
      return None, ops;
    }

    /** One half of it: the reader has nothing, or has failed. */
    method Stall(r: Stream, w: Stream, ghost c: Config, ghost s0: State, ghost m: Mark, ghost ops0: seq<Op>,
        ghost s: State, q: Poll<nat, IoError>)
      returns (stop: Option<Poll<nat, IoError>>, ghost ops: seq<Op>)
      requires Consistent(r, w) && c == Cfg(r) && s == Abs(r, w, Top) && !w.shut && r != w
      requires RunFrom(c, s0, ops0) == Some(s) && Inv(c, s) && OnePoll(ops0) && pos == cap && !readDone
      requires MarkOf(r, w) == m.After(ops0).Then(ReadOp(q)) && !(q.Ready? && q.result.Ok?)
      modifies this`needFlush, w`flushed, w`writeLog
      ensures stop.Some? && Tracks(r, w, c, s0, m, ops, ControlAfter(stop.value)) && ops0 <= ops
      ensures !(stop.value.Ready? && stop.value.result.Ok?) && ErrorIsOf(stop.value, ops)
    {
      hide RunFrom, Inv, StepWrite, StepFinish, StepShutdown, StepIdleFlush, OnePoll, Mark.After;
      ops := ops0 + [ReadOp(q)];
      var idle := q.Pending? && needFlush;
      stop := if q.Pending? then Some(Pending) else Some(Ready(Err(q.result.error)));
      Follow(r, w, c, s0, m, ops0, s, ReadOp(q), if idle then IdleFlush else ControlAfter(stop.value));
      if idle {
        stop, ops := FlushIdle(r, w, c, s0, m, ops);
      }
    }

    /** The other half: the reader has put `n` bytes into the store. */
    method TakeIn(r: Stream, w: Stream, ghost c: Config, ghost s0: State, ghost m: Mark, ghost ops0: seq<Op>,
        ghost s: State, n: nat)
      requires r.Readable() && w.Writable() && r0 <= r.rd - n && w0 <= |w.written|
      requires c == Cfg(r) && n <= Room() && pos == cap <= Room() && !readDone && (store.Pipe? ==> |fifo| == n)
      requires RunFrom(c, s0, ops0) == Some(s) && Inv(c, s)
      requires s == State(readDone, needFlush, pos, cap, amt, r.rd - n - r0, [], w.written[w0..], w.flushed - w0, Top)
      requires OnePoll(ops0) && MarkOf(r, w) == m.After(ops0).Then(Read(n))
      requires n == 0 ==> r.rd == |r.input| || Room() == 0
      requires (if store.Slice? then store.data[..n] else fifo) == Transform(c, c.input[s.rd..s.rd + n])
      modifies this`readDone, this`pos, this`cap
      ensures Tracks(r, w, c, s0, m, ops0 + [Read(n)], Top)
      ensures readDone <==> n == 0
    {
      hide RunFrom, Inv, StepWrite, StepFinish, StepShutdown, StepIdleFlush, OnePoll, Mark.After, IsChunk, XorAll;
      if n == 0 {
        readDone := true;
      } else {
        pos := 0;
        cap := n;
      }
      Follow(r, w, c, s0, m, ops0, s, Read(n), Top);
    }

    /** Try flushing when the reader makes no progress. */
    method FlushIdle(r: Stream, w: Stream, ghost c: Config, ghost s0: State, ghost m: Mark, ghost ops0: seq<Op>)
      returns (stop: Option<Poll<nat, IoError>>, ghost ops: seq<Op>)
      requires Tracks(r, w, c, s0, m, ops0, IdleFlush) && !w.shut && r != w && needFlush
      modifies this`needFlush, w`flushed, w`writeLog
      ensures stop.Some? && !(stop.value.Ready? && stop.value.result.Ok?) && ErrorIsOf(stop.value, ops)
      ensures Tracks(r, w, c, s0, m, ops, ControlAfter(stop.value)) && ops0 <= ops
    {
      hide RunFrom, Inv, OnePoll, Mark.After, IsChunk, XorAll;
      ghost var s := Abs(r, w, IdleFlush);
      var f := w.PollFlush();
      ops := ops0 + [FlushOp(f)];
      if f.Pending? {
        stop := Some(Pending);
      } else if f.result.Err? {
        stop := Some(Ready(Err(f.result.error)));
      } else {
        needFlush := false;
        stop := Some(Pending);
      }
      Follow(r, w, c, s0, m, ops0, s, FlushOp(f), ControlAfter(stop.value));
    }

    /** The second part: offer the window to the writer until it is empty. */
    method WriteOut(r: Stream, w: Stream, ghost c: Config, ghost s0: State, ghost m: Mark, ghost ops0: seq<Op>)
      returns (stop: Option<Poll<nat, IoError>>, ghost ops: seq<Op>)
      requires Tracks(r, w, c, s0, m, ops0, Top) && !w.shut && r != w
      modifies this`pos, this`amt, this`needFlush, this`fifo, w`written, w`writeLog, w`offered
      ensures old(w.written) <= w.written && old(pos) <= pos
      ensures Tracks(r, w, c, s0, m, ops, if stop.None? then Top else ControlAfter(stop.value)) && ops0 <= ops
      ensures stop.None? ==> pos == cap
      ensures stop.Some? ==> !(stop.value.Ready? && stop.value.result.Ok?) && ErrorIsOf(stop.value, ops)
    {
      hide RunFrom, Inv, Step, Window, OnePoll, Mark.After, ErrorIsOf;
      ops := ops0;
      while pos < cap
        invariant old(pos) <= pos && old(w.written) <= w.written
        invariant Tracks(r, w, c, s0, m, ops, Top) && ops0 <= ops
      {
        stop, ops := WriteSome(r, w, c, s0, m, ops);
        if stop.Some? {
          return;
        }
      }
      return None, ops;
    }

    /** One write; accepting nothing is an error. */
    method WriteSome(r: Stream, w: Stream, ghost c: Config, ghost s0: State, ghost m: Mark, ghost ops0: seq<Op>)
      returns (stop: Option<Poll<nat, IoError>>, ghost ops: seq<Op>)
      requires Tracks(r, w, c, s0, m, ops0, Top) && !w.shut && r != w && pos < cap
      modifies this`pos, this`amt, this`needFlush, this`fifo, w`written, w`writeLog, w`offered
      ensures old(w.written) <= w.written
      ensures Tracks(r, w, c, s0, m, ops, if stop.None? then Top else ControlAfter(stop.value)) && ops0 <= ops
      ensures stop.None? ==> old(pos) < pos
      ensures stop.Some? ==> old(pos) == pos
      ensures stop.Some? ==> !(stop.value.Ready? && stop.value.result.Ok?) && ErrorIsOf(stop.value, ops)
    {
      hide RunFrom, Inv, StepRead, StepFinish, StepShutdown, StepIdleFlush, OnePoll, Mark.After, IsChunk, XorAll;
      ghost var s := Abs(r, w, Top);
      WindowLength(r, w);
      var q := PollWriteBuf(w);
      ops := ops0 + [WriteOp(q)];
      if !(q.Ready? && q.result.Ok? && q.result.value > 0) {
        stop := Some(if q.Pending? then Pending else if q.result.Err? then Ready(Err(q.result.error))
          else Ready(Err(WriteZero)));
        Follow(r, w, c, s0, m, ops0, s, WriteOp(q), ControlAfter(stop.value));
        return;
      }
      var i := q.result.value;
      stop := None;
      assert w.written[w0..] == s.sent + s.window[..i];
      GiveOut(r, w, c, s0, m, ops0, s, i);
    }

    /** The rest of it: the writer has accepted `i` bytes of the window. */
    method GiveOut(r: Stream, w: Stream, ghost c: Config, ghost s0: State, ghost m: Mark, ghost ops0: seq<Op>,
        ghost s: State, i: nat)
      requires r.Readable() && w.Writable() && r0 <= r.rd && w0 <= |w.written|
      requires c == Cfg(r) && 0 < i <= cap - pos && cap <= Room() && (store.Pipe? ==> |fifo| == cap - pos - i)
      requires RunFrom(c, s0, ops0) == Some(s) && Inv(c, s) && |s.window| == cap - pos
      requires s == State(readDone, needFlush, pos, cap, amt, r.rd - r0, s.window, s.sent, w.flushed - w0, Top)
      requires OnePoll(ops0) && MarkOf(r, w) == m.After(ops0).Then(Write(i))
      requires w.written[w0..] == s.sent + s.window[..i]
      requires (if store.Slice? then store.data[pos + i..cap] else fifo) == s.window[i..]
      modifies this`pos, this`amt, this`needFlush
      ensures Tracks(r, w, c, s0, m, ops0 + [Write(i)], Top)
      ensures pos == old(pos) + i
    {
      hide RunFrom, Inv, StepRead, StepFinish, StepShutdown, StepIdleFlush, OnePoll, Mark.After, IsChunk, XorAll;
      pos := pos + i;
      amt := amt + i;
      needFlush := true;
      Follow(r, w, c, s0, m, ops0, s, Write(i), Top);
    }

    lemma WindowLength(r: Stream, w: Stream)
      requires Consistent(r, w)
      ensures |Window()| == cap - pos
    {
    }

    /** The last part: everything is written and the end was seen, so flush. */
    method Finish(r: Stream, w: Stream, ghost c: Config, ghost s0: State, ghost m: Mark, ghost ops0: seq<Op>)
      returns (p: Poll<nat, IoError>, ghost ops: seq<Op>)
      requires Tracks(r, w, c, s0, m, ops0, Top) && !w.shut && r != w && pos == cap && readDone
      modifies w`flushed, w`writeLog
      ensures Tracks(r, w, c, s0, m, ops, ControlAfter(p)) && ops0 <= ops && ErrorIsOf(p, ops)
      ensures p.Ready? && p.result.Ok? ==> p.result.value == amt
    {
      hide RunFrom, Inv, OnePoll, Mark.After, IsChunk, XorAll;
      ghost var s := Abs(r, w, Top);
      var f := w.PollFlush();
      ops := ops0 + [FlushOp(f)];
      if f.Pending? {
        p := Pending;
      } else if f.result.Err? {
        p := Ready(Err(f.result.error));
      } else {
        p := Ready(Ok(amt));
      }
      Follow(r, w, c, s0, m, ops0, s, FlushOp(f), ControlAfter(p));
    }
  }
}
