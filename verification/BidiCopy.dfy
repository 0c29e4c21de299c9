/** Two opposite copies between two streams, each followed by the shutdown of
    its writer, polled together. */
module BidiCopy {
  import opened Bytes
  import opened Wrappers
  import opened Streams
  import opened CopyMachine
  import opened CopyBuffer

  datatype TransferState = Running(buf: CopyBuffer) | ShuttingDown(count: nat) | Done(count: nat)

  /** One direction. */
  class Transfer {
    var state: TransferState
    ghost var failed: bool
    ghost const buf: CopyBuffer   // the buffer of the copy phase
    ghost var log: seq<Op>        // every stream operation so far

    constructor (buf: CopyBuffer, r: Stream, w: Stream)
      requires r.Readable() && w.Writable() && !w.shut && r != w
      requires !buf.readDone && !buf.needFlush && buf.pos == buf.cap == buf.amt == 0 && buf.fifo == []
      modifies buf
      ensures Valid(r, w) && log == [] && !failed && state == Running(buf) && this.buf == buf
      ensures buf.r0 == r.rd && buf.w0 == |w.written| && buf.backlog == |w.written| - w.flushed
      ensures unchanged(buf`readDone, buf`needFlush, buf`pos, buf`cap, buf`amt, buf`fifo)
    {
      state, failed, log := Running(buf), false, [];
      this.buf := buf;
      new;
      buf.r0, buf.w0, buf.backlog := r.rd, |w.written|, |w.written| - w.flushed;
      assert buf.Window() == [];
      assert buf.Abs(r, w, Suspended) == Init(buf.Cfg(r));
      assert Transform(buf.Cfg(r), buf.Cfg(r).input[..0]) == [];
    }

    ghost function At(): Control
      reads this
    {
      if failed then Failed else
        match state
        case Running(_) => Suspended
        case ShuttingDown(_) => Closing
        case Done(_) => Closed
    }

    ghost function Memory(): set<object> {
      {this, buf} + if buf.store.Slice? then {buf.store.data} else {}
    }

    /** Everything that has happened is a run of the machine, and the fields
        say where that run stands. */
    ghost predicate Valid(r: Stream, w: Stream)
      reads Memory(), r`rd, w`written, w`flushed, w`shut
    {
      && r != w
      && (state.Running? ==> state.buf == buf)
      && buf.Consistent(r, w)
      && Run(buf.Cfg(r), log) == Some(buf.Abs(r, w, At()))
      && Inv(buf.Cfg(r), buf.Abs(r, w, At()))
      && (!state.Running? ==> state.count == buf.amt)
      && (w.shut <==> At() == Closed)
    }

    /** What one poll made of its streams' answers: since `before` the direction has
        failed exactly if a stream failed it, and is not done exactly if a stream was
        not ready. One that was done already asks nothing. */
    ghost predicate Advanced(before: seq<Op>)
      reads this
    {
      && before <= log
      && (failed <==> AnyFails(log[|before|..]))
      && (!failed ==> (!state.Done? <==> AnyPending(log[|before|..])))
    }

    /** Drives the direction as far as it will go now. */
    method Poll(r: Stream, w: Stream) returns (p: Poll<nat, IoError>)
      requires Valid(r, w) && !failed
      modifies this, buf, r`rd, r`readLog, r`asked, w`written, w`flushed, w`shut, w`writeLog, w`offered
      modifies if buf.store.Slice? then {buf.store.data} else {}
      ensures Valid(r, w) && old(log) <= log && old(w.written) <= w.written
      ensures buf.r0 == old(buf.r0) && buf.w0 == old(buf.w0) && buf.backlog == old(buf.backlog)
      ensures failed <==> p.Ready? && p.result.Err?
      ensures !failed ==> p == if state.Done? then Ready(Ok(|w.written| - buf.w0)) else Pending
      ensures if old(state).Done? then log == old(log) && state == old(state) else old(log) < log
      ensures MarkOf(r, w) == old(MarkOf(r, w)).After(log[|old(log)|..])
      ensures Advanced(old(log)) && IsDueTo(p, log[|old(log)|..])
      ensures failed ==> EndsIn(p.result.error, log)
    {
      hide *;
      ghost var m, gained: seq<Op> := MarkOf(r, w), [];
      m.AfterNothing();
      NoneOfNothing();
      while true
        invariant Valid(r, w) && !failed && old(w.written) <= w.written
        invariant log == old(log) + gained && MarkOf(r, w) == m.After(gained)
        invariant !AnyFails(gained) && !AnyPending(gained)
        invariant buf.r0 == old(buf.r0) && buf.w0 == old(buf.w0) && buf.backlog == old(buf.backlog)
        invariant old(state).Done? ==> gained == [] && state == old(state)
        invariant !old(state).Done? ==> state == old(state) || gained != []
        decreases if state.Running? then 2 else if state.ShuttingDown? then 1 else 0
      {
        ghost var ops;
        match state
        case Running(_) =>
          var q;
          q, ops := Copy(r, w);
          Account(m, old(log), gained, ops, q);
          gained := gained + ops;
          if q.Pending? {
            return Pending;
          }
          if q.result.Err? {
            return Ready(Err(q.result.error));
          }
        case ShuttingDown(_) =>
          var q;
          q, ops := Close(r, w);
          Account(m, old(log), gained, ops, q);
          gained := gained + ops;
          if q.Pending? {
            return Pending;
          }
          if q.result.Err? {
            return Ready(Err(q.result.error));
          }
        case Done(count) =>
          DoneMeansDelivered(r, w);
          NothingDue(count, old(log), gained);
          return Ready(Ok(count));
      }
    }

    /** Once the writer is shut down the count is what this direction wrote, and
        that is all the reader had: unchanged through a pipe or a plain slice,
        byte-wise XORed through an obfuscating slice. All of it is flushed, and so
        is whatever the writer had accepted before. */
    lemma DoneMeansDelivered(r: Stream, w: Stream)
      requires Valid(r, w) && state.Done? && !failed
      ensures w.shut && buf.w0 <= |w.written| && buf.r0 <= |r.input|
      ensures state.count == |w.written| - buf.w0
      ensures w.flushed == |w.written|
      ensures buf.Room() > 0 ==>
        w.written[buf.w0..] == if buf.store.Slice? && buf.mode != 0
          then XorAll(r.input[buf.r0..], OBFS_XOR) else r.input[buf.r0..]
      ensures var wrote, took := w.written[buf.w0..], r.input[buf.r0..];
        buf.Room() > 0 ==> (|wrote| == |took| && forall i | 0 <= i < |took| ::
          wrote[i] == if buf.store.Slice? && buf.mode != 0 then took[i] ^ 0x5A else took[i])
    {
      RunConserves(buf.Cfg(r), log);
      FinishedMeansDelivered(buf.Cfg(r), log);
    }

    /** Streams that neither fail nor keep the relay waiting let one poll finish the
        direction. */
    lemma ReadyStreamsFinish(r: Stream, w: Stream, before: seq<Op>)
      requires Valid(r, w) && Advanced(before) && buf.Room() > 0
      requires !AnyPending(log[|before|..]) && !AnyFails(log[|before|..])
      ensures state.Done? && !failed && w.shut && w.flushed == |w.written|
      ensures w.written[buf.w0..] == Transform(buf.Cfg(r), r.input[buf.r0..])
    {
      hide Valid, AnyPending, AnyFails;
      DoneMeansDelivered(r, w);
    }

    /** A direction that waits for its reader, and not for a flush, has flushed
        everything its writer accepted once it wrote anything itself; until then
        it has flushed nothing, not even what was there before it began. */
    lemma WaitingMeansFlushed(r: Stream, w: Stream)
      requires Valid(r, w) && Waiting()
      ensures w.flushed == if w.written[buf.w0..] == [] then buf.w0 - buf.backlog else |w.written|
    {
      hide Step;
      IdleMeansFlushed(buf.Cfg(r), log);
    }

    /** Suspended on an empty buffer before the end of the source. */
    ghost predicate Waiting()
      reads this, buf
    {
      && state.Running? && !failed && buf.pos == buf.cap && !buf.readDone
      && !(log != [] && log[|log| - 1] == FlushPending)
    }

    /** The `Running` arm: on success the buffer is dropped for the count. */
    method Copy(r: Stream, w: Stream) returns (q: Poll<nat, IoError>, ghost ops: seq<Op>)
      requires Valid(r, w) && !failed && state.Running?
      modifies this, buf, r`rd, r`readLog, r`asked, w`written, w`flushed, w`writeLog, w`offered
      modifies if buf.store.Slice? then {buf.store.data} else {}
      ensures Valid(r, w) && old(w.written) <= w.written
      ensures log == old(log) + ops && ops != [] && IsDueTo(q, ops)
      ensures MarkOf(r, w) == old(MarkOf(r, w)).After(ops)
      ensures buf.r0 == old(buf.r0) && buf.w0 == old(buf.w0) && buf.backlog == old(buf.backlog)
      ensures failed <==> q.Ready? && q.result.Err?
      ensures !failed ==> if q.Pending? then state == old(state) else state.ShuttingDown?
    {
      hide RunFrom, Inv, Step, Transform, IsDueTo, Mark.After;
      var b := state.buf;
      ghost var c := b.Cfg(r);
      q, ops := b.PollCopy(r, w);
      RunAppend(c, Init(c), log, ops);
      log := log + ops;
      if q.Ready? {
        if q.result.Err? {
          failed := true;
        } else {
          state := ShuttingDown(q.result.value);
        }
      }
    }

    /** The `ShuttingDown` arm. */
    method Close(r: Stream, w: Stream) returns (q: Poll<(), IoError>, ghost ops: seq<Op>)
      requires Valid(r, w) && !failed && state.ShuttingDown?
      modifies this, w`shut, w`writeLog
      ensures Valid(r, w)
      ensures log == old(log) + ops && ops != [] && IsDueTo(q, ops)
      ensures MarkOf(r, w) == old(MarkOf(r, w)).After(ops)
      ensures failed <==> q.Ready? && q.result.Err?
      ensures !failed ==> if q.Pending? then state == old(state) else state == Done(old(state).count)
    {
      hide RunFrom, Inv, Transform, Mark.After, IsDueTo, StepRead, StepWrite, StepFinish, StepIdleFlush;
      ghost var c, s := buf.Cfg(r), buf.Abs(r, w, Closing);
      q := w.PollShutdown();
      ghost var op := ShutdownOp(q);
      ops := [op];
      ShutdownAlone(old(MarkOf(r, w)), q);
      RunThen(c, Init(c), log, op);
      StepKeepsInv(c, s, op);
      log := log + [op];
      if q.Ready? {
        if q.result.Err? {
          failed := true;
        } else {
          state := Done(state.count);
        }
      }
    }

    lemma ShutdownAlone(m: Mark, q: Poll<(), IoError>)
      ensures m.After([ShutdownOp(q)]) == m.Then(ShutdownOp(q)) && IsDueTo(q, [ShutdownOp(q)])
    {
      assert [] + [ShutdownOp(q)] == [ShutdownOp(q)];
      m.AfterNothing();
      m.AfterThen([], ShutdownOp(q));
      AnyThen([], ShutdownOp(q));
    }

    lemma NoneOfNothing()
      ensures !AnyFails([]) && !AnyPending([])
    {
    }

    lemma NothingDue(count: nat, before: seq<Op>, gained: seq<Op>)
      requires !AnyFails(gained) && !AnyPending(gained) && state.Done? && !failed && log == before + gained
      ensures log[|before|..] == gained && Advanced(before) && IsDueTo<nat>(Ready(Ok(count)), gained)
    {
    }

    /** The operations of one arm are added to those of the poll so far. */
    lemma Account<T>(m: Mark, before: seq<Op>, gained: seq<Op>, ops: seq<Op>, q: Poll<T, IoError>)
      requires !AnyFails(gained) && !AnyPending(gained) && IsDueTo(q, ops)
      requires log == before + gained + ops
      requires failed <==> q.Ready? && q.result.Err?
      requires q.Pending? ==> !state.Done?
      ensures log == before + (gained + ops) && log[|before|..] == gained + ops
      ensures m.After(gained).After(ops) == m.After(gained + ops)
      ensures q.Ready? && q.result.Ok? ==> !AnyFails(gained + ops) && !AnyPending(gained + ops)
      ensures !(q.Ready? && q.result.Ok?) ==> Advanced(before)
      ensures q.Pending? ==> IsDueTo<nat>(Pending, gained + ops)
      ensures q.Ready? && q.result.Err? ==>
        IsDueTo<nat>(Ready(Err(q.result.error)), gained + ops) && EndsIn(q.result.error, log)
    {
      hide *;
      m.AfterMore(gained, ops);
      DueAfter(q, gained, ops);
      Regroup(before, gained, ops);
      Tail(before, gained + ops);
      Recast(before, gained + ops, q);
      Progress(before, gained + ops, q);
    }

    lemma Progress<T>(before: seq<Op>, gained: seq<Op>, q: Poll<T, IoError>)
      requires IsDueTo(q, gained) && log == before + gained && log[|before|..] == gained
      requires failed <==> q.Ready? && q.result.Err?
      requires q.Pending? ==> !state.Done?
      ensures q.Ready? && q.result.Ok? ==> !AnyFails(gained) && !AnyPending(gained)
      ensures !(q.Ready? && q.result.Ok?) ==> Advanced(before)
    {
      hide AnyFails, AnyPending, ErrorIsOf;
    }
  }

  lemma Tail(before: seq<Op>, after: seq<Op>)
    ensures (before + after)[|before|..] == after
  {
  }

  /** An answer that is no success, as the answer of the whole direction. */
  lemma Recast<T>(before: seq<Op>, ops: seq<Op>, q: Poll<T, IoError>)
    requires IsDueTo(q, ops)
    ensures q.Pending? ==> IsDueTo<nat>(Pending, ops)
    ensures q.Ready? && q.result.Err? ==>
      IsDueTo<nat>(Ready(Err(q.result.error)), ops) && EndsIn(q.result.error, before + ops)
  {
    hide AnyFails, AnyPending;
  }

  class BidiCopy {
    const a: Stream
    const b: Stream
    const aToB: Transfer
    const bToA: Transfer
    const brutal: bool   // the crate's `brutal-shutdown` feature

    ghost predicate Separate()
    {
      && a != b && aToB != bToA && aToB.buf != bToA.buf
      && (aToB.buf.store.Slice? && bToA.buf.store.Slice? ==> aToB.buf.store.data != bToA.buf.store.data)
    }

    ghost predicate Valid()
      reads aToB.Memory(), bToA.Memory(), a, b
    {
      Separate() && aToB.Valid(a, b) && bToA.Valid(b, a)
    }

    constructor (a: Stream, b: Stream, aToB: Transfer, bToA: Transfer, brutal: bool)
      requires a != b && aToB.Valid(a, b) && bToA.Valid(b, a) && aToB.buf != bToA.buf
      requires aToB.buf.store.Slice? && bToA.buf.store.Slice? ==> aToB.buf.store.data != bToA.buf.store.data
      ensures Valid()
      ensures this.a == a && this.b == b && this.aToB == aToB && this.bToA == bToA && this.brutal == brutal
    {
      this.a, this.b, this.aToB, this.bToA, this.brutal := a, b, aToB, bToA, brutal;
    }

    /** Polls both directions unless the first fails. Graceful shutdown waits for
        both; brutal shutdown answers as soon as one is done and reports nothing
        for the other. */
    method Poll() returns (p: Poll<(nat, nat), IoError>)
      requires Valid() && !aToB.failed && !bToA.failed
      modifies aToB.Memory(), bToA.Memory(), a, b
      ensures Valid()
      ensures old(aToB.log) <= aToB.log && old(bToA.log) <= bToA.log
      // both directions are polled, unless the first fails
      ensures aToB.Advanced(old(aToB.log)) && (!old(aToB.state).Done? ==> old(aToB.log) < aToB.log)
      ensures !aToB.failed ==> bToA.Advanced(old(bToA.log)) && (!old(bToA.state).Done? ==> old(bToA.log) < bToA.log)
      // and what they record is what the streams answered in this call
      ensures MarkOf(a, b) == old(MarkOf(a, b)).After(aToB.log[|old(aToB.log)|..])
      ensures MarkOf(b, a) == old(MarkOf(b, a)).After(bToA.log[|old(bToA.log)|..])
      ensures p.Ready? && p.result.Err? <==> aToB.failed || bToA.failed
      ensures aToB.failed ==> bToA.log == old(bToA.log) && !bToA.failed
      ensures p.Ready? && p.result.Err? ==> EndsIn(p.result.error, if aToB.failed then aToB.log else bToA.log)
      ensures p.Ready? && p.result.Ok? ==>
        var (x, y) := p.result.value;
        && (if aToB.state.Done? then x == |b.written| - aToB.buf.w0 else brutal && x == 0)
        && (if bToA.state.Done? then y == |a.written| - bToA.buf.w0 else brutal && y == 0)
        && (aToB.state.Done? || bToA.state.Done?)
      ensures p.Pending? ==> !(aToB.state.Done? && bToA.state.Done?)
      ensures p.Pending? && brutal ==> !aToB.state.Done? && !bToA.state.Done?
    {
      hide Transfer.Valid, Transfer.Advanced, IsDueTo, Mark.After, EndsIn;
      var q1 := aToB.Poll(a, b);
      if q1.Ready? && q1.result.Err? {
        MarkOf(b, a).AfterNothing();
        assert bToA.log[|old(bToA.log)|..] == [];
        return Ready(Err(q1.result.error));
      }
      var q2 := bToA.Poll(b, a);
      if q2.Ready? && q2.result.Err? {
        return Ready(Err(q2.result.error));
      }
      if !brutal {
        if q1.Pending? || q2.Pending? {
          return Pending;
        }
        return Ready(Ok((q1.result.value, q2.result.value)));
      } else {
        match (q1, q2)
        case (Ready(x), Ready(y)) => return Ready(Ok((x.value, y.value)));
        case (Pending, Ready(y)) => return Ready(Ok((0, y.value)));
        case (Ready(x), Pending) => return Ready(Ok((x.value, 0)));
        case (Pending, Pending) => return Pending;
      }
    }
  }
}
