/** A connected stream as the relay sees it: two independent halves whose polls
    may be pending, fail, or move any permitted number of bytes. */
module Streams {
  import opened Bytes
  import opened Wrappers

  datatype IoError = Broken | WriteZero | UnexpectedEof | InvalidData

  /** What a relay does with its streams: every outcome of every poll, and the point
      where the relay itself is polled again. */
  datatype Op =
    | Resume
    | Read(n: nat) | ReadPending | ReadErr(error: IoError)
    | Write(n: nat) | WritePending | WriteErr(error: IoError)
    | Flush | FlushPending | FlushErr(error: IoError)
    | Shutdown | ShutdownPending | ShutdownErr(error: IoError)

  function Counted(p: Poll<seq<byte>, IoError>): Poll<nat, IoError> {
    match p
    case Pending => Pending
    case Ready(Ok(d)) => Ready(Ok(|d|))
    case Ready(Err(e)) => Ready(Err(e))
  }

  function ReadOp(p: Poll<nat, IoError>): Op {
    match p
    case Pending => ReadPending
    case Ready(Ok(n)) => Read(n)
    case Ready(Err(e)) => ReadErr(e)
  }

  function WriteOp(p: Poll<nat, IoError>): Op {
    match p
    case Pending => WritePending
    case Ready(Ok(n)) => Write(n)
    case Ready(Err(e)) => WriteErr(e)
  }

  function FlushOp(p: Poll<(), IoError>): Op {
    match p
    case Pending => FlushPending
    case Ready(Ok(_)) => Flush
    case Ready(Err(e)) => FlushErr(e)
  }

  function ShutdownOp(p: Poll<(), IoError>): Op {
    match p
    case Pending => ShutdownPending
    case Ready(Ok(_)) => Shutdown
    case Ready(Err(e)) => ShutdownErr(e)
  }

  predicate IsPending(op: Op) {
    op.ReadPending? || op.WritePending? || op.FlushPending? || op.ShutdownPending?
  }

  /** The stream reports an error, or a write accepts nothing. */
  predicate Fails(op: Op) {
    op.ReadErr? || op.WriteErr? || op.FlushErr? || op.ShutdownErr? || op == Write(0)
  }

  /** The error that a failing operation ends the poll with. */
  function ErrorIn(op: Op): IoError
    requires Fails(op)
  {
    if op.Write? then WriteZero else op.error
  }

  class Stream {
    // read half: everything the peer sends before its end, and how much was taken
    const input: seq<byte>
    var rd: nat
    // write half: everything accepted, how much of it is known to be flushed
    var written: seq<byte>
    var flushed: nat
    var shut: bool
    // what each half has answered so far, and what it was last asked for or offered
    ghost var readLog: seq<Op>
    ghost var writeLog: seq<Op>
    ghost var asked: nat
    ghost var offered: seq<byte>

    predicate Readable()
      reads this`rd
    {
      rd <= |input|
    }

    predicate Writable()
      reads this`written, this`flushed
    {
      flushed <= |written|
    }

    constructor (input: seq<byte>)
      ensures Readable() && Writable() && this.input == input && rd == 0
      ensures written == [] && flushed == 0 && !shut
    {
      this.input := input;
      rd, written, flushed, shut := 0, [], 0, false;
      readLog, writeLog, asked, offered := [], [], 0, [];
    }

    function Unread(): seq<byte>
      requires Readable()
      reads this`rd
    {
      input[rd..]
    }

    /** Moves at most `room` bytes; none only at the end or without room. */
    method PollRead(room: nat) returns (p: Poll<seq<byte>, IoError>)
      requires Readable()
      modifies this`rd, this`readLog, this`asked
      ensures Readable() && asked == room
      ensures readLog == old(readLog) + [ReadOp(Counted(p))]
      ensures p.Ready? && p.result.Ok? ==>
        var d := p.result.value;
        && |d| <= room && rd == old(rd) + |d| && d == input[old(rd)..rd]
        && (d == [] ==> rd == |input| || room == 0)
      ensures !(p.Ready? && p.result.Ok?) ==> rd == old(rd)
    {
      if * {
        p := Pending;
      } else if * {
        p := Ready(Err(Broken));
      } else if rd == |input| || room == 0 {
        p := Ready(Ok([]));
      } else {
        var n :| 1 <= n <= room && rd + n <= |input|;
        p := Ready(Ok(input[rd..rd + n]));
        rd := rd + n;
      }
      readLog, asked := readLog + [ReadOp(Counted(p))], room;
    }

    /** Accepts any prefix of the data, possibly nothing. */
    method PollWrite(data: seq<byte>) returns (p: Poll<nat, IoError>)
      requires Writable() && !shut
      modifies this`written, this`writeLog, this`offered
      ensures Writable() && offered == data
      ensures writeLog == old(writeLog) + [WriteOp(p)]
      ensures p.Ready? && p.result.Ok? ==>
        p.result.value <= |data| && written == old(written) + data[..p.result.value]
      ensures !(p.Ready? && p.result.Ok?) ==> written == old(written)
    {
      if * {
        p := Pending;
      } else if * {
        p := Ready(Err(Broken));
      } else {
        var n :| 0 <= n <= |data|;
        written := written + data[..n];
        p := Ready(Ok(n));
      }
      writeLog, offered := writeLog + [WriteOp(p)], data;
    }

    method PollFlush() returns (p: Poll<(), IoError>)
      requires Writable() && !shut
      modifies this`flushed, this`writeLog
      ensures Writable() && writeLog == old(writeLog) + [FlushOp(p)]
      ensures flushed == if p.Ready? && p.result.Ok? then |written| else old(flushed)
    {
      if * {
        p := Pending;
      } else if * {
        p := Ready(Err(Broken));
      } else {
        flushed := |written|;
        p := Ready(Ok(()));
      }
      writeLog := writeLog + [FlushOp(p)];
    }

    method PollShutdown() returns (p: Poll<(), IoError>)
      requires !shut
      modifies this`shut, this`writeLog
      ensures writeLog == old(writeLog) + [ShutdownOp(p)]
      ensures shut <==> p.Ready? && p.result.Ok?
    {
      if * {
        p := Pending;
      } else if * {
        p := Ready(Err(Broken));
      } else {
        shut := true;
        p := Ready(Ok(()));
      }
      writeLog := writeLog + [ShutdownOp(p)];
    }
  }
}
