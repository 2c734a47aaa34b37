/** From the wire to the callbacks: what the workers' read jobs make of a connection's bytes, its jobs being run
    in order and its parser fed with one chunk after the other. */
module Delivery {
  import opened Bytes
  import opened Framing
  import opened ThreadPool
  import opened EventLoop

  /** The data of the read jobs, in order. */
  function DataOf(jobs: seq<Job>): seq<seq<byte>> {
    if jobs == [] then []
    else (if jobs[0].ReadJob? then [jobs[0].data] else []) + DataOf(jobs[1..])
  }

  /** The chunks received from a connection, in arrival order. */
  function ReceivedChunks(ops: seq<Op>, conn: Conn): seq<seq<byte>> {
    DataOf(ReadJobs(conn, Reads(ops, conn)))
  }

  /** The chunks its read jobs have handed to the parser so far. */
  function HandledChunks(workers: nat, ops: seq<Op>, conn: Conn): seq<seq<byte>> {
    DataOf(Of(After(workers, ops).executed, conn))
  }

  lemma {:induction false} DataOfAppend(a: seq<Job>, b: seq<Job>)
    ensures DataOf(a + b) == DataOf(a) + DataOf(b)
    decreases |a|
  {
    if a == [] {
      assert a + b == b;
    } else {
      assert (a + b)[1..] == a[1..] + b;
      DataOfAppend(a[1..], b);
    }
  }

  lemma {:induction false} FlattenAppend(a: seq<seq<byte>>, b: seq<seq<byte>>)
    ensures Flatten(a + b) == Flatten(a) + Flatten(b)
    decreases |a|
  {
    if a == [] {
      assert a + b == b;
    } else {
      assert (a + b)[1..] == a[1..] + b;
      FlattenAppend(a[1..], b);
    }
  }

  lemma ExpectedData(ops: seq<Op>, conn: Conn)
    ensures DataOf(Expected(ops, conn)) == if PhaseOf(ops, conn).Never? then [] else ReceivedChunks(ops, conn)
  {
    var accept, readJobs := AcceptJob(conn, AcceptedWith(ops, conn)), ReadJobs(conn, Reads(ops, conn));
    hide PhaseOf, Reads, AcceptedWith, ReadJobs;
    NoData(accept);
    NoData(CloseJob(conn));
    DataOfAppend([accept], readJobs);
    DataOfAppend([accept] + readJobs, [CloseJob(conn)]);
  }

  lemma NoData(job: Job)
    requires !job.ReadJob?
    ensures DataOf([job]) == []
  {
    assert [job][1..] == [];
  }

  /** The handled chunks are the first of the received ones. */
  lemma HandledFirst(workers: nat, ops: seq<Op>, conn: Conn)
    requires workers > 0 && IsRun(workers, ops)
    ensures HandledChunks(workers, ops, conn) <= ReceivedChunks(ops, conn)
  {
    hide Expected, Of, DataOf, After, PhaseOf;
    ExecutedPrefix(workers, ops, conn);
    var run, all := Of(After(workers, ops).executed, conn), Expected(ops, conn);
    assert run + all[|run|..] == all;
    DataOfAppend(run, all[|run|..]);
    ExpectedData(ops, conn);
  }

  /** A stream without a bad frame has none in any part that came first, and the callbacks of that part are the
      first of its callbacks. */
  lemma FirstPart(part: seq<byte>, more: seq<byte>)
    requires BadEnd(part + more).None?
    ensures BadEnd(part).None? && Drain(part).events <= Drain(part + more).events
  {
    hide Drain, BadEnd;
    if BadEnd(part).Some? {
      BadEndStable(part, more);
    } else {
      DrainInSteps(part, more);
    }
  }

  /** Over every run and interleaving: as long as no bad frame is received on a connection, the callbacks fired
      for it so far are the first of those that the stream received so far calls for, whatever its chunks. */
  lemma CallbacksInOrder(workers: nat, ops: seq<Op>, conn: Conn)
    requires workers > 0 && IsRun(workers, ops)
    requires BadEnd(Flatten(ReceivedChunks(ops, conn))).None?
    ensures Receive([], HandledChunks(workers, ops, conn)).events <= Drain(Flatten(ReceivedChunks(ops, conn))).events
    ensures HandledChunks(workers, ops, conn) == ReceivedChunks(ops, conn) ==>
              Receive([], HandledChunks(workers, ops, conn)) == Drain(Flatten(ReceivedChunks(ops, conn)))
  {
    hide Drain, BadEnd, Receive, Flatten, ReceivedChunks, HandledChunks;
    HandledFirst(workers, ops, conn);
    var handled, received := HandledChunks(workers, ops, conn), ReceivedChunks(ops, conn);
    assert handled + received[|handled|..] == received;
    FlattenAppend(handled, received[|handled|..]);
    FirstPart(Flatten(handled), Flatten(received[|handled|..]));
    ReceiveAll(handled, Flatten(handled));
  }

  /** From end to end: when a client sends built frames, then at any moment, with any part of them still under
      way or waiting, the callbacks fired are the first of the sent commands, in order and with their data. */
  lemma CommandsInOrder(workers: nat, ops: seq<Op>, conn: Conn, sent: seq<Event>, underway: seq<byte>)
    requires workers > 0 && IsRun(workers, ops)
    requires forall e | e in sent :: Sendable(e)
    requires Flatten(ReceivedChunks(ops, conn)) + underway == Frames(sent)
    ensures Receive([], HandledChunks(workers, ops, conn)).events <= sent
    ensures underway == [] && HandledChunks(workers, ops, conn) == ReceivedChunks(ops, conn) ==>
              Receive([], HandledChunks(workers, ops, conn)) == Parsed(sent, [])
  {
    hide Drain, BadEnd, Receive, Flatten, ReceivedChunks, HandledChunks, Frames, NextFrame;
    var received := Flatten(ReceivedChunks(ops, conn));
    NothingNeedsMore();
    FramesRoundTrip(sent, []);
    assert Frames(sent) + [] == Frames(sent);
    FirstPart(received, underway);
    CallbacksInOrder(workers, ops, conn);
    assert underway == [] ==> received == Frames(sent);
  }

  lemma NothingNeedsMore()
    ensures NextFrame([]).NeedMore?
  {
  }

  /** Once no job of the connection waits or is being run, all its received chunks are handled. */
  lemma AllHandled(workers: nat, ops: seq<Op>, conn: Conn)
    requires workers > 0 && IsRun(workers, ops) && !PhaseOf(ops, conn).Never?
    requires var s := After(workers, ops);
             forall w | 0 <= w < workers && w < |s.core.queues| == |s.current| :: Of(InFlight(s, w), conn) == []
    ensures HandledChunks(workers, ops, conn) == ReceivedChunks(ops, conn)
  {
    hide Expected, Of, DataOf, After, PhaseOf, InFlight, ReceivedChunks;
    JobsInOrder(workers, ops, conn);
    ExpectedData(ops, conn);
    LaneExists(PhaseOf(ops, conn), workers);
    var s, w := After(workers, ops), Lane(PhaseOf(ops, conn), workers).value;
    assert LaneInOrder(s, ops, conn, workers, w);
    assert Of(s.executed, conn) + [] == Of(s.executed, conn);
  }

  lemma LaneExists(p: Phase, workers: nat)
    requires workers > 0 && !p.Never?
    ensures Lane(p, workers).Some? && Lane(p, workers).value < workers
  {
  }
}
