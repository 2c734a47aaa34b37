/** The connection life cycle: the event loop's callbacks, the heartbeat, and the workers that run the
    jobs it posts. */
module EventLoop {
  import opened Bytes
  import opened ThreadPool

  type Fd = nat
  type TimerId = nat

  /** What a callback is registered with: the connection's address and its bufferevent. */
  datatype Ctx = Ctx(conn: Conn, bev: Bev)

  /** libevent's own record of a live bufferevent. */
  datatype Live = Live(fd: Fd, conn: Conn)

  datatype Core = Core(
    bufMap: map<Bev, TimerId>,
    mCounter: map<Bev, int>,
    queues: seq<seq<Job>>,
    live: map<Bev, Live>,
    beats: seq<Bev>)   // the bufferevents a heartbeat was written to

  function FdOf(c: Core, bev: Bev): Fd {
    if bev in c.live then c.live[bev].fd else 0
  }

  function Post(c: Core, index: nat, job: Job): Core {
    if c.queues == [] then c else c.(queues := Enqueue(c.queues, index, job))
  }

  function Accept(c: Core, fd: Fd, ctx: Ctx, timeout: TimerId): Core {
    var d := c.(live := c.live[ctx.bev := Live(fd, ctx.conn)],
                mCounter := c.mCounter[ctx.bev := 0],
                bufMap := if ctx.bev in c.bufMap then c.bufMap else c.bufMap[ctx.bev := timeout]);
    Post(d, fd, AcceptJob(ctx.conn, ctx.bev))
  }

  function Read(c: Core, ctx: Ctx, data: seq<byte>): Core {
    Post(c.(mCounter := c.mCounter[ctx.bev := 0]), FdOf(c, ctx.bev), ReadJob(ctx.conn, ctx.bev, data))
  }

  function DeleteBuf(c: Core, ctx: Ctx): Core {
    if ctx.bev in c.bufMap then
      Post(c, FdOf(c, ctx.bev), CloseJob(ctx.conn)).(mCounter := c.mCounter - {ctx.bev},
                                                    bufMap := c.bufMap - {ctx.bev},
                                                    live := c.live - {ctx.bev})
    else c
  }

  function Beat(c: Core, bev: Bev): Core {
    if bev in c.bufMap then c.(beats := c.beats + [bev]) else c
  }

  function Tick(c: Core, ctx: Ctx): Core {
    if ctx.bev !in c.mCounter then c
    else
      var n := c.mCounter[ctx.bev] + 1;
      var d := c.(mCounter := c.mCounter[ctx.bev := n]);
      if n > 4 then DeleteBuf(d, ctx) else Beat(d, ctx.bev)
  }

  class ServerSocket {
    const manager: Pool
    var bufMap: map<Bev, TimerId>
    var mCounter: map<Bev, int>
    var live: map<Bev, Live>
    var beats: seq<Bev>

    ghost predicate Valid()
      reads this, manager
    {
      manager.Valid()
    }

    function View(): Core
      reads this, manager, manager.vWork
    {
      Core(bufMap, mCounter, manager.Queues(), live, beats)
    }

    constructor (workers: nat)
      requires 0 < workers <= 30
      ensures Valid() && fresh(manager) && fresh(manager.vWork)
      ensures View() == Core(map[], map[], seq(workers, _ => []), map[], [])
    {
      manager := new Pool(workers);
      bufMap, mCounter, live, beats := map[], map[], map[], [];
    }

    method AcceptConnCb(fd: Fd, ctx: Ctx, timeout: TimerId)
      requires Valid()
      modifies this, manager.vWork
      ensures Valid() && View() == Accept(old(View()), fd, ctx, timeout)
    {
      live := live[ctx.bev := Live(fd, ctx.conn)];
      mCounter := mCounter[ctx.bev := 0];
      BufMapAddBuf(ctx.bev, timeout);
      manager.Run(AcceptJob(ctx.conn, ctx.bev), fd);
    }

    method BufMapAddBuf(bev: Bev, timeout: TimerId)
      modifies this`bufMap
      ensures bufMap == if bev in old(bufMap) then old(bufMap) else old(bufMap)[bev := timeout]
    {
      if bev !in bufMap {
        bufMap := bufMap[bev := timeout];
      }
    }

    method ReadCb(ctx: Ctx, data: seq<byte>)
      requires Valid() && ctx.bev in live
      modifies this`mCounter, manager.vWork
      ensures Valid() && View() == Read(old(View()), ctx, data)
    {
      mCounter := mCounter[ctx.bev := 0];
      manager.Run(ReadJob(ctx.conn, ctx.bev, data), live[ctx.bev].fd);
    }

    method BufMapDeleteBuf(ctx: Ctx) returns (deleted: bool)
      requires Valid() && (ctx.bev in bufMap ==> ctx.bev in live)
      modifies this, manager.vWork
      ensures Valid() && View() == DeleteBuf(old(View()), ctx)
      ensures deleted <==> ctx.bev in old(bufMap)
    {
      if ctx.bev in bufMap {
        manager.Run(CloseJob(ctx.conn), live[ctx.bev].fd);
        if ctx.bev in mCounter {
          mCounter := mCounter - {ctx.bev};
        }
        bufMap := bufMap - {ctx.bev};
        live := live - {ctx.bev};
        return true;
      }
      return false;
    }

    /** Only an error or an end of file closes the connection. */
    method EventCb(ctx: Ctx, error: bool, eof: bool)
      requires Valid() && (ctx.bev in bufMap ==> ctx.bev in live)
      modifies this, manager.vWork
      ensures Valid() && View() == if error || eof then DeleteBuf(old(View()), ctx) else old(View())
    {
      if error {
        var _ := BufMapDeleteBuf(ctx);
      } else if eof {
        var _ := BufMapDeleteBuf(ctx);
      }
    }

    /** Writes to a bufferevent that is still in the map; -1 otherwise. `written` is libevent's answer. */
    method BufSend(bev: Bev, written: int) returns (r: int)
      ensures r == if bev in bufMap then written else -1
    {
      if bev in bufMap {
        return written;
      }
      return -1;
    }

    method TimerCb(ctx: Ctx)
      requires Valid() && (ctx.bev in bufMap ==> ctx.bev in live)
      modifies this, manager.vWork
      ensures Valid() && View() == Tick(old(View()), ctx)
    {
      if ctx.bev in mCounter {
        mCounter := mCounter[ctx.bev := mCounter[ctx.bev] + 1];
        if mCounter[ctx.bev] > 4 {
          var _ := BufMapDeleteBuf(ctx);
          return;
        }
        var r := BufSend(ctx.bev, 0);
        if r == 0 {
          beats := beats + [ctx.bev];
        }
      }
    }
  }

  // ----- the whole system: event loop, libevent, workers -----

  datatype Op =
    | DoAccept(fd: Fd, ctx: Ctx, timeout: TimerId)
    | DoRead(ctx: Ctx, data: seq<byte>)
    | DoEvent(ctx: Ctx, error: bool, eof: bool)
    | DoTick(ctx: Ctx)
    | Take(worker: nat)     // a worker takes the front job of its queue
    | Finish(worker: nat)   // and has run it

  datatype System = System(core: Core, current: seq<Option<Job>>, executed: seq<Job>)

  function Initial(workers: nat): System {
    System(Core(map[], map[], seq(workers, _ => []), map[], []), seq(workers, _ => None), [])
  }

  function Apply(s: System, op: Op): System {
    match op
    case DoAccept(fd, ctx, timeout) => s.(core := Accept(s.core, fd, ctx, timeout))
    case DoRead(ctx, data) => s.(core := Read(s.core, ctx, data))
    case DoEvent(ctx, error, eof) => if error || eof then s.(core := DeleteBuf(s.core, ctx)) else s
    case DoTick(ctx) => s.(core := Tick(s.core, ctx))
    case Take(w) =>
      if w < |s.core.queues| && w < |s.current| && s.current[w].None? && s.core.queues[w] != [] then
        s.(core := s.core.(queues := s.core.queues[w := s.core.queues[w][1..]]),
           current := s.current[w := Some(s.core.queues[w][0])])
      else s
    case Finish(w) =>
      if w < |s.current| && s.current[w].Some? then
        s.(executed := s.executed + [s.current[w].value], current := s.current[w := None])
      else s
  }

  function After(workers: nat, ops: seq<Op>): System {
    if ops == [] then Initial(workers) else Apply(After(workers, ops[..|ops| - 1]), ops[|ops| - 1])
  }

  // ----- a connection as its history tells it -----

  datatype Phase = Never | Open(bev: Bev, fd: Fd, silent: int) | Closed(fd: Fd)

  /** How one step changes one connection's phase. */
  function Evolve(before: Phase, op: Op, conn: Conn): Phase {
    match op
    case DoAccept(fd, ctx, _) => if ctx.conn == conn then Open(ctx.bev, fd, 0) else before
    case DoRead(ctx, _) => if ctx.conn == conn && before.Open? then before.(silent := 0) else before
    case DoEvent(ctx, error, eof) =>
      if ctx.conn == conn && before.Open? && (error || eof) then Closed(before.fd) else before
    case DoTick(ctx) =>
      if ctx.conn != conn || !before.Open? then before
      else if before.silent + 1 == 5 then Closed(before.fd)
      else before.(silent := before.silent + 1)
    case _ => before
  }

  function PhaseOf(ops: seq<Op>, conn: Conn): Phase {
    if ops == [] then Never
    else
      Evolve(PhaseOf(ops[..|ops| - 1], conn), ops[|ops| - 1], conn)
  }

  /** The data read on a connection, in arrival order. */
  function Reads(ops: seq<Op>, conn: Conn): seq<(Bev, seq<byte>)> {
    if ops == [] then []
    else
      var op := ops[|ops| - 1];
      Reads(ops[..|ops| - 1], conn) + if op.DoRead? && op.ctx.conn == conn then [(op.ctx.bev, op.data)] else []
  }

  /** The bufferevent a connection was accepted with. */
  function AcceptedWith(ops: seq<Op>, conn: Conn): Bev {
    if ops == [] then 0
    else
      var op := ops[|ops| - 1];
      if op.DoAccept? && op.ctx.conn == conn then op.ctx.bev else AcceptedWith(ops[..|ops| - 1], conn)
  }

  function ReadJobs(conn: Conn, data: seq<(Bev, seq<byte>)>): seq<Job> {
    seq(|data|, i requires 0 <= i < |data| => ReadJob(conn, data[i].0, data[i].1))
  }

  /** The jobs a connection should cause: one accept, its reads in arrival order, then one close. */
  function Expected(ops: seq<Op>, conn: Conn): seq<Job> {
    match PhaseOf(ops, conn)
    case Never => []
    case Open(_, _, _) => [AcceptJob(conn, AcceptedWith(ops, conn))] + ReadJobs(conn, Reads(ops, conn))
    case Closed(_) => [AcceptJob(conn, AcceptedWith(ops, conn))] + ReadJobs(conn, Reads(ops, conn)) + [CloseJob(conn)]
  }

  /** What libevent and the allocator guarantee: a new bufferevent and a new address are unused, data
      comes only from live bufferevents, and a late event or timer callback of a closed connection
      does not meet its bufferevent in use again. */
  predicate Allowed(s: System, ops: seq<Op>, op: Op) {
    match op
    case DoAccept(_, ctx, _) => ctx.bev !in s.core.live && PhaseOf(ops, ctx.conn).Never?
    case DoRead(ctx, _) => ctx.bev in s.core.live && s.core.live[ctx.bev].conn == ctx.conn
    case DoEvent(ctx, _, _) =>
      if ctx.bev in s.core.live then s.core.live[ctx.bev].conn == ctx.conn else PhaseOf(ops, ctx.conn).Closed?
    case DoTick(ctx) =>
      if ctx.bev in s.core.live then s.core.live[ctx.bev].conn == ctx.conn else PhaseOf(ops, ctx.conn).Closed?
    case _ => true
  }

  predicate IsRun(workers: nat, ops: seq<Op>) {
    ops == [] ||
    var init := ops[..|ops| - 1];
    IsRun(workers, init) && Allowed(After(workers, init), init, ops[|ops| - 1])
  }

  // ----- the maps follow the histories -----

  /** A table entry is an open connection with its silence count, and an open connection has its entry. */
  ghost predicate EntryAgrees(c: Core, p: Phase, bev: Bev) {
    bev in c.live ==>
      && bev in c.mCounter
      && 0 <= c.mCounter[bev] <= 4
      && p == Open(bev, c.live[bev].fd, c.mCounter[bev])
  }

  ghost predicate PhaseAgrees(c: Core, p: Phase, conn: Conn) {
    p.Open? ==> p.bev in c.live && c.live[p.bev].conn == conn
  }

  /** The three tables have the same keys; each entry is an open connection with its silence count. */
  ghost predicate MapsAgree(c: Core, ops: seq<Op>) {
    && c.bufMap.Keys == c.live.Keys == c.mCounter.Keys
    && (forall bev | bev in c.live :: EntryAgrees(c, PhaseOf(ops, c.live[bev].conn), bev))
    && (forall conn :: PhaseAgrees(c, PhaseOf(ops, conn), conn))
  }

  /** A core with another's tables. */
  predicate SameTables(c: Core, d: Core) {
    c.bufMap == d.bufMap && c.mCounter == d.mCounter && c.live == d.live
  }

  /** The tables after a step, queues aside. */
  lemma TablesAfter(s: System, op: Op)
    ensures var c, d := s.core, Apply(s, op).core;
            match op
            case DoAccept(fd, ctx, timeout) =>
              && d.live == c.live[ctx.bev := Live(fd, ctx.conn)]
              && d.mCounter == c.mCounter[ctx.bev := 0]
              && d.bufMap.Keys == c.bufMap.Keys + {ctx.bev}
            case DoRead(ctx, _) =>
              d.live == c.live && d.bufMap == c.bufMap && d.mCounter == c.mCounter[ctx.bev := 0]
            case DoEvent(ctx, error, eof) =>
              if (error || eof) && ctx.bev in c.bufMap then
                d.live == c.live - {ctx.bev} && d.bufMap == c.bufMap - {ctx.bev} && d.mCounter == c.mCounter - {ctx.bev}
              else SameTables(c, d)
            case DoTick(ctx) =>
              if ctx.bev !in c.mCounter then SameTables(c, d)
              else if c.mCounter[ctx.bev] + 1 > 4 && ctx.bev in c.bufMap then
                d.live == c.live - {ctx.bev} && d.bufMap == c.bufMap - {ctx.bev} && d.mCounter == c.mCounter - {ctx.bev}
              else
                d.live == c.live && d.bufMap == c.bufMap && d.mCounter == c.mCounter[ctx.bev := c.mCounter[ctx.bev] + 1]
            case _ => SameTables(c, d)
  {
    hide Enqueue;
    var c := s.core;
    if op.DoTick? && op.ctx.bev in c.mCounter {
      var n := c.mCounter[op.ctx.bev] + 1;
      assert c.mCounter[op.ctx.bev := n] - {op.ctx.bev} == c.mCounter - {op.ctx.bev};
    }
  }

  lemma EntryStep(s: System, init: seq<Op>, op: Op, bev: Bev)
    requires MapsAgree(s.core, init) && Allowed(s, init, op)
    requires bev in Apply(s, op).core.live
    ensures EntryAgrees(Apply(s, op).core, PhaseOf(init + [op], Apply(s, op).core.live[bev].conn), bev)
  {
    hide Apply, PhaseOf;
    TablesAfter(s, op);
    var c, d := s.core, Apply(s, op).core;
    PhaseEvolves(init, op, d.live[bev].conn);
    assert bev in c.live ==> EntryAgrees(c, PhaseOf(init, c.live[bev].conn), bev);
    if !op.Take? && !op.Finish? {
      assert op.ctx.bev in c.live ==> EntryAgrees(c, PhaseOf(init, c.live[op.ctx.bev].conn), op.ctx.bev);
      if bev in c.live && c.live[bev].conn == op.ctx.conn {
        assert PhaseAgrees(c, PhaseOf(init, op.ctx.conn), op.ctx.conn);
      }
    }
  }

  lemma PhaseStep(s: System, init: seq<Op>, op: Op, conn: Conn)
    requires MapsAgree(s.core, init) && Allowed(s, init, op)
    ensures PhaseAgrees(Apply(s, op).core, PhaseOf(init + [op], conn), conn)
  {
    hide Apply, PhaseOf;
    TablesAfter(s, op);
    var c := s.core;
    PhaseEvolves(init, op, conn);
    assert PhaseAgrees(c, PhaseOf(init, conn), conn);
    if !op.Take? && !op.Finish? {
      assert op.ctx.bev in c.live ==> EntryAgrees(c, PhaseOf(init, c.live[op.ctx.bev].conn), op.ctx.bev);
    }
  }

  lemma MapsStep(s: System, init: seq<Op>, op: Op)
    requires MapsAgree(s.core, init) && Allowed(s, init, op)
    ensures MapsAgree(Apply(s, op).core, init + [op])
  {
    hide Apply, PhaseOf, EntryAgrees, PhaseAgrees;
    var ops, d := init + [op], Apply(s, op).core;
    assert d.bufMap.Keys == d.live.Keys == d.mCounter.Keys by { TablesAfter(s, op); }
    forall bev | bev in d.live
      ensures EntryAgrees(d, PhaseOf(ops, d.live[bev].conn), bev)
    {
      EntryStep(s, init, op, bev);
    }
    forall conn
      ensures PhaseAgrees(d, PhaseOf(ops, conn), conn)
    {
      PhaseStep(s, init, op, conn);
    }
  }

  lemma PhaseEvolves(init: seq<Op>, op: Op, conn: Conn)
    ensures PhaseOf(init + [op], conn) == Evolve(PhaseOf(init, conn), op, conn)
  {
    assert (init + [op])[..|init|] == init;
  }

  /** Heartbeat and maps, over every run. */
  lemma {:induction false} MapsFollowHistory(workers: nat, ops: seq<Op>)
    requires IsRun(workers, ops)
    ensures MapsAgree(After(workers, ops).core, ops)
    decreases |ops|
  {
    hide MapsAgree, Allowed, Apply;
    if ops == [] {
      assert MapsAgree(Initial(workers).core, []) by { MapsInitially(workers); }
    } else {
      var init, op := ops[..|ops| - 1], ops[|ops| - 1];
      MapsFollowHistory(workers, init);
      assert init + [op] == ops;
      MapsStep(After(workers, init), init, op);
    }
  }

  lemma MapsInitially(workers: nat)
    ensures MapsAgree(Initial(workers).core, [])
  {
  }

  // ----- order -----

  /** The jobs of one connection. */
  function Of(jobs: seq<Job>, conn: Conn): seq<Job> {
    if jobs == [] then []
    else Of(jobs[..|jobs| - 1], conn) + if jobs[|jobs| - 1].conn == conn then [jobs[|jobs| - 1]] else []
  }

  lemma {:induction false} OfAppend(a: seq<Job>, b: seq<Job>, conn: Conn)
    ensures Of(a + b, conn) == Of(a, conn) + Of(b, conn)
    decreases |b|
  {
    if b == [] {
      assert a + b == a;
    } else {
      assert (a + b)[..|a + b| - 1] == a + b[..|b| - 1];
      OfAppend(a, b[..|b| - 1], conn);
    }
  }

  lemma OfOne(j: Job, conn: Conn)
    ensures Of([j], conn) == if j.conn == conn then [j] else []
  {
    assert [j][..0] == [];
  }

  /** The jobs given to worker `w` and not yet run, oldest first. */
  function InFlight(s: System, w: nat): seq<Job>
    requires w < |s.core.queues| == |s.current|
  {
    (if s.current[w].Some? then [s.current[w].value] else []) + s.core.queues[w]
  }

  datatype Posting = Posting(index: nat, job: Job)

  /** The job a callback posts, and the index it posts it with. */
  function Posted(s: System, op: Op): Option<Posting> {
    var c := s.core;
    match op
    case DoAccept(fd, ctx, _) => Some(Posting(fd, AcceptJob(ctx.conn, ctx.bev)))
    case DoRead(ctx, data) => Some(Posting(FdOf(c, ctx.bev), ReadJob(ctx.conn, ctx.bev, data)))
    case DoEvent(ctx, error, eof) =>
      if (error || eof) && ctx.bev in c.bufMap then Some(Posting(FdOf(c, ctx.bev), CloseJob(ctx.conn))) else None
    case DoTick(ctx) =>
      if ctx.bev in c.mCounter && c.mCounter[ctx.bev] + 1 > 4 && ctx.bev in c.bufMap
      then Some(Posting(FdOf(c, ctx.bev), CloseJob(ctx.conn))) else None
    case _ => None
  }

  ghost predicate Sized(s: System, workers: nat) {
    |s.core.queues| == |s.current| == workers > 0
  }

  /** What a step that starts in `s` and ends in `t` does to the jobs in flight and to the executed. */
  ghost predicate JobsMoved(s: System, t: System, op: Op, workers: nat)
    requires Sized(s, workers) && Sized(t, workers)
  {
    var p := Posted(s, op);
    if p.Some? then
      && t.executed == s.executed
      && forall w | 0 <= w < workers ::
           InFlight(t, w) == InFlight(s, w) + if w == p.value.index % workers then [p.value.job] else []
    else if op.Finish? && op.worker < workers && s.current[op.worker].Some? then
      var job := s.current[op.worker].value;
      && t.executed == s.executed + [job]
      && forall w | 0 <= w < workers :: (if w == op.worker then [job] else []) + InFlight(t, w) == InFlight(s, w)
    else
      && t.executed == s.executed
      && forall w | 0 <= w < workers :: InFlight(t, w) == InFlight(s, w)
  }

  /** A callback posts at most one job, and moves nothing else. */
  lemma CallbackPosts(s: System, op: Op)
    requires s.core.queues != [] && !op.Take? && !op.Finish?
    ensures var t, p := Apply(s, op), Posted(s, op);
            && t.current == s.current && t.executed == s.executed
            && t.core.queues == if p.Some? then Enqueue(s.core.queues, p.value.index, p.value.job) else s.core.queues
  {
    hide Enqueue;
  }

  lemma PostMoves(s: System, t: System, index: nat, job: Job, workers: nat)
    requires Sized(s, workers) && t.current == s.current && t.core.queues == Enqueue(s.core.queues, index, job)
    ensures Sized(t, workers)
    ensures forall w | 0 <= w < workers ::
              InFlight(t, w) == InFlight(s, w) + if w == index % workers then [job] else []
  {
    forall w | 0 <= w < workers
      ensures InFlight(t, w) == InFlight(s, w) + if w == index % workers then [job] else []
    {
      assert t.core.queues[w] == s.core.queues[w] + if w == index % workers then [job] else [];
    }
  }

  lemma TakeMoves(s: System, w: nat, workers: nat)
    requires Sized(s, workers)
    ensures var t := Apply(s, Take(w));
            && Sized(t, workers) && t.executed == s.executed
            && forall v | 0 <= v < workers :: InFlight(t, v) == InFlight(s, v)
  {
    if w < workers && s.core.queues[w] != [] {
      assert [s.core.queues[w][0]] + s.core.queues[w][1..] == s.core.queues[w];
    }
  }

  lemma FinishMoves(s: System, w: nat, workers: nat)
    requires Sized(s, workers) && w < workers && s.current[w].Some?
    ensures var t, job := Apply(s, Finish(w)), s.current[w].value;
            && Sized(t, workers) && t.executed == s.executed + [job]
            && forall v | 0 <= v < workers :: (if v == w then [job] else []) + InFlight(t, v) == InFlight(s, v)
  {
  }

  lemma JobsAfter(s: System, op: Op, workers: nat)
    requires Sized(s, workers)
    ensures Sized(Apply(s, op), workers) && JobsMoved(s, Apply(s, op), op, workers)
  {
    hide InFlight, Accept, Read, DeleteBuf, Tick;
    match op
    case Take(w) => TakeMoves(s, w, workers);
    case Finish(w) => if w < workers && s.current[w].Some? { FinishMoves(s, w, workers); }
    case _ =>
      CallbackPosts(s, op);
      var p := Posted(s, op);
      if p.Some? { PostMoves(s, Apply(s, op), p.value.index, p.value.job, workers); }
      else { SameMoves(s, Apply(s, op), workers); }
  }

  lemma SameMoves(s: System, t: System, workers: nat)
    requires Sized(s, workers) && t.current == s.current && t.core.queues == s.core.queues
    ensures Sized(t, workers) && forall w | 0 <= w < workers :: InFlight(t, w) == InFlight(s, w)
  {
  }

  /** The worker that every job of the connection goes to. */
  function Lane(p: Phase, workers: nat): Option<nat>
    requires workers > 0
  {
    match p
    case Never => None
    case Open(_, fd, _) => Some(fd % workers)
    case Closed(fd) => Some(fd % workers)
  }

  /** One worker's share: its own connections' jobs are in order, and it has no others in flight. */
  ghost predicate LaneInOrder(s: System, ops: seq<Op>, conn: Conn, workers: nat, w: nat)
    requires Sized(s, workers) && w < workers
  {
    if Lane(PhaseOf(ops, conn), workers) == Some(w)
    then Of(s.executed, conn) + Of(InFlight(s, w), conn) == Expected(ops, conn)
    else Of(InFlight(s, w), conn) == []
  }

  /** The connection's jobs, run and in flight, are the expected ones in the expected order, and all of
      those in flight are with one worker. */
  ghost predicate InOrder(s: System, ops: seq<Op>, conn: Conn, workers: nat) {
    && Sized(s, workers)
    && (PhaseOf(ops, conn).Never? ==> Reads(ops, conn) == [] && Of(s.executed, conn) == [])
    && (forall w | 0 <= w < workers :: LaneInOrder(s, ops, conn, workers, w))
  }

  /** What a step adds to the expected jobs of a connection is the job it posts, and it posts it to the
      connection's worker. */
  ghost predicate Grows(s: System, init: seq<Op>, op: Op, conn: Conn, workers: nat)
    requires workers > 0
  {
    var ops, p := init + [op], Posted(s, op);
    if p.Some? && p.value.job.conn == conn then
      && Expected(ops, conn) == Expected(init, conn) + [p.value.job]
      && Lane(PhaseOf(ops, conn), workers) == Some(p.value.index % workers)
      && (PhaseOf(init, conn).Never? || Lane(PhaseOf(init, conn), workers) == Some(p.value.index % workers))
    else
      && Expected(ops, conn) == Expected(init, conn)
      && Lane(PhaseOf(ops, conn), workers) == Lane(PhaseOf(init, conn), workers)
      && PhaseOf(ops, conn).Never? == PhaseOf(init, conn).Never?
  }

  lemma ExpectedStep(s: System, init: seq<Op>, op: Op, conn: Conn, workers: nat)
    requires workers > 0 && MapsAgree(s.core, init) && Allowed(s, init, op)
    requires PhaseOf(init, conn).Never? ==> Reads(init, conn) == []
    ensures PhaseOf(init + [op], conn).Never? ==> Reads(init + [op], conn) == []
    ensures Grows(s, init, op, conn, workers)
  {
    hide PhaseOf, Reads, AcceptedWith, MapsAgree;
    PhaseEvolves(init, op, conn);
    HistoryAfter(init, op, conn);
    MapsAgreeOn(s.core, init, conn);
    if !op.Take? && !op.Finish? {
      MapsAgreeAt(s.core, init, op.ctx.bev);
    }
    if op.DoRead? && op.ctx.conn == conn {
      ReadJobsAppend(conn, Reads(init, conn), (op.ctx.bev, op.data));
    }
  }

  lemma HistoryAfter(init: seq<Op>, op: Op, conn: Conn)
    ensures Reads(init + [op], conn) ==
            Reads(init, conn) + if op.DoRead? && op.ctx.conn == conn then [(op.ctx.bev, op.data)] else []
    ensures AcceptedWith(init + [op], conn) ==
            if op.DoAccept? && op.ctx.conn == conn then op.ctx.bev else AcceptedWith(init, conn)
  {
    var ops := init + [op];
    assert ops[..|ops| - 1] == init;
  }

  lemma MapsAgreeOn(c: Core, ops: seq<Op>, conn: Conn)
    requires MapsAgree(c, ops)
    ensures PhaseAgrees(c, PhaseOf(ops, conn), conn)
  {
  }

  lemma MapsAgreeAt(c: Core, ops: seq<Op>, bev: Bev)
    requires MapsAgree(c, ops)
    ensures bev in c.bufMap <==> bev in c.live
    ensures bev in c.mCounter <==> bev in c.live
    ensures bev in c.live ==> EntryAgrees(c, PhaseOf(ops, c.live[bev].conn), bev)
  {
  }

  lemma ReadJobsAppend(conn: Conn, data: seq<(Bev, seq<byte>)>, more: (Bev, seq<byte>))
    ensures ReadJobs(conn, data + [more]) == ReadJobs(conn, data) + [ReadJob(conn, more.0, more.1)]
  {
  }

  /** A posted job joins the jobs in flight of its connection and of no other. */
  lemma OrderPost(s: System, t: System, op: Op, conn: Conn, workers: nat, w: nat)
    requires Sized(s, workers) && Sized(t, workers) && JobsMoved(s, t, op, workers)
    requires Posted(s, op).Some? && w < workers
    ensures t.executed == s.executed
    ensures var p := Posted(s, op).value;
            Of(InFlight(t, w), conn) ==
            Of(InFlight(s, w), conn) + if p.job.conn == conn && w == p.index % workers then [p.job] else []
  {
    hide InFlight, Posted;
    var p := Posted(s, op).value;
    OfAppend(InFlight(s, w), [p.job], conn);
    OfOne(p.job, conn);
    assert w != p.index % workers ==> InFlight(t, w) == InFlight(s, w) + [] == InFlight(s, w);
  }

  lemma FinishPostsNothing(s: System, op: Op)
    ensures op.Finish? ==> Posted(s, op).None?
  {
  }

  /** A finished job moves from the jobs in flight to the executed ones. */
  lemma OrderFinish(s: System, t: System, op: Op, conn: Conn, workers: nat, w: nat)
    requires Sized(s, workers) && Sized(t, workers) && JobsMoved(s, t, op, workers)
    requires op.Finish? && op.worker < workers && s.current[op.worker].Some? && w < workers
    ensures var job := s.current[op.worker].value;
            var mine := if job.conn == conn then [job] else [];
            && Of(t.executed, conn) == Of(s.executed, conn) + mine
            && Of(InFlight(s, w), conn) == (if w == op.worker then mine else []) + Of(InFlight(t, w), conn)
  {
    hide InFlight, Posted, Of;
    FinishPostsNothing(s, op);
    var job := s.current[op.worker].value;
    OfAppend(s.executed, [job], conn);
    OfOne(job, conn);
    OfAppend([job], InFlight(t, w), conn);
    assert w != op.worker ==> InFlight(s, w) == [] + InFlight(t, w) == InFlight(t, w);
  }

  lemma PostKeepsOrder(s: System, t: System, init: seq<Op>, op: Op, conn: Conn, workers: nat, w: nat)
    requires Sized(s, workers) && Sized(t, workers) && w < workers && JobsMoved(s, t, op, workers)
    requires Posted(s, op).Some? && Grows(s, init, op, conn, workers)
    requires PhaseOf(init, conn).Never? ==> Of(s.executed, conn) == [] && Expected(init, conn) == []
    requires LaneInOrder(s, init, conn, workers, w)
    ensures LaneInOrder(t, init + [op], conn, workers, w)
  {
    hide PhaseOf, Expected, Posted, InFlight, Of, JobsMoved;
    OrderPost(s, t, op, conn, workers, w);
    var job := Posted(s, op).value.job;
    assert Of(s.executed, conn) + (Of(InFlight(s, w), conn) + [job])
           == Of(s.executed, conn) + Of(InFlight(s, w), conn) + [job];
  }

  lemma FinishKeepsOrder(s: System, t: System, init: seq<Op>, op: Op, conn: Conn, workers: nat, w: nat)
    requires Sized(s, workers) && Sized(t, workers) && w < workers && JobsMoved(s, t, op, workers)
    requires op.Finish? && op.worker < workers && s.current[op.worker].Some?
    requires Grows(s, init, op, conn, workers)
    requires LaneInOrder(s, init, conn, workers, w) && LaneInOrder(s, init, conn, workers, op.worker)
    ensures LaneInOrder(t, init + [op], conn, workers, w)
  {
    hide PhaseOf, Expected, InFlight, Of, JobsMoved, Lane;
    OrderFinish(s, t, op, conn, workers, w);
    OrderFinish(s, t, op, conn, workers, op.worker);
  }

  lemma IdleKeepsOrder(s: System, t: System, init: seq<Op>, op: Op, conn: Conn, workers: nat, w: nat)
    requires Sized(s, workers) && Sized(t, workers) && w < workers && JobsMoved(s, t, op, workers)
    requires Posted(s, op).None? && !(op.Finish? && op.worker < workers && s.current[op.worker].Some?)
    requires Grows(s, init, op, conn, workers)
    requires LaneInOrder(s, init, conn, workers, w)
    ensures LaneInOrder(t, init + [op], conn, workers, w)
  {
    hide PhaseOf, Expected, Posted, InFlight, Of, Lane;
  }

  /** Nothing is run for a connection before its accept. */
  lemma NeverKeepsOrder(s: System, t: System, init: seq<Op>, op: Op, conn: Conn, workers: nat)
    requires Sized(s, workers) && Sized(t, workers) && JobsMoved(s, t, op, workers)
    requires Grows(s, init, op, conn, workers)
    requires forall w | 0 <= w < workers :: LaneInOrder(s, init, conn, workers, w)
    requires PhaseOf(init, conn).Never? ==> Of(s.executed, conn) == []
    ensures PhaseOf(init + [op], conn).Never? ==> Of(t.executed, conn) == []
  {
    hide PhaseOf, Expected, InFlight, Of;
    if PhaseOf(init + [op], conn).Never? && Posted(s, op).None? {
      if op.Finish? && op.worker < workers && s.current[op.worker].Some? {
        assert LaneInOrder(s, init, conn, workers, op.worker);
        OrderFinish(s, t, op, conn, workers, op.worker);
      }
    }
  }

  lemma NothingExpected(ops: seq<Op>, conn: Conn)
    ensures PhaseOf(ops, conn).Never? ==> Expected(ops, conn) == []
  {
    hide PhaseOf;
  }

  lemma OrderStep(s: System, init: seq<Op>, op: Op, conn: Conn, workers: nat)
    requires MapsAgree(s.core, init) && Allowed(s, init, op) && InOrder(s, init, conn, workers)
    ensures InOrder(Apply(s, op), init + [op], conn, workers)
  {
    hide PhaseOf, Reads, Expected, Posted, MapsAgree, Allowed, Apply, InFlight, Of, JobsMoved, Grows, Lane;
    var t, ops, p := Apply(s, op), init + [op], Posted(s, op);
    NothingExpected(init, conn);
    JobsAfter(s, op, workers);
    ExpectedStep(s, init, op, conn, workers);
    var finishing := op.Finish? && op.worker < workers && s.current[op.worker].Some?;
    assert op.Finish? ==> p.None? by { FinishPostsNothing(s, op); }
    hide LaneInOrder;
    forall w | 0 <= w < workers
      ensures LaneInOrder(t, ops, conn, workers, w)
    {
      if p.Some? {
        PostKeepsOrder(s, t, init, op, conn, workers, w);
      } else if finishing {
        FinishKeepsOrder(s, t, init, op, conn, workers, w);
      } else {
        IdleKeepsOrder(s, t, init, op, conn, workers, w);
      }
    }
    NeverKeepsOrder(s, t, init, op, conn, workers);
  }

  lemma InitiallyInOrder(workers: nat, conn: Conn)
    requires workers > 0
    ensures InOrder(Initial(workers), [], conn, workers)
  {
  }

  /** Per-connection order, over every run and every interleaving of the workers: the jobs of a
      connection that were run, followed by those in flight with its one worker, are exactly the
      expected ones, in the expected order. No job is lost and none is run twice. */
  lemma {:induction false} JobsInOrder(workers: nat, ops: seq<Op>, conn: Conn)
    requires workers > 0 && IsRun(workers, ops)
    ensures InOrder(After(workers, ops), ops, conn, workers)
    decreases |ops|
  {
    hide InOrder, Allowed, Apply;
    if ops == [] {
      InitiallyInOrder(workers, conn);
    } else {
      var init, op := ops[..|ops| - 1], ops[|ops| - 1];
      JobsInOrder(workers, init, conn);
      MapsFollowHistory(workers, init);
      assert init + [op] == ops;
      OrderStep(After(workers, init), init, op, conn, workers);
    }
  }

  /** What was run for a connection is a prefix of: its accept, its reads in arrival order, its close. */
  lemma ExecutedPrefix(workers: nat, ops: seq<Op>, conn: Conn)
    requires workers > 0 && IsRun(workers, ops)
    ensures Of(After(workers, ops).executed, conn) <= Expected(ops, conn)
  {
    JobsInOrder(workers, ops, conn);
    hide Expected, PhaseOf, After, InFlight;
    var lane := Lane(PhaseOf(ops, conn), workers);
    if lane.Some? {
      var s, w := After(workers, ops), lane.value;
      assert LaneInOrder(s, ops, conn, workers, w);
    }
  }

  /** At most one close is run, as the last job of the connection. */
  lemma OneCloseLast(workers: nat, ops: seq<Op>, conn: Conn, k: nat)
    requires workers > 0 && IsRun(workers, ops)
    requires k < |Of(After(workers, ops).executed, conn)|
    ensures var run := Of(After(workers, ops).executed, conn);
            && (run[k].AcceptJob? <==> k == 0)
            && (run[k].CloseJob? ==> k == |run| - 1 && PhaseOf(ops, conn).Closed?)
  {
    ExecutedPrefix(workers, ops, conn);
    hide PhaseOf, After, Of;
    var run := Of(After(workers, ops).executed, conn);
    assert run[k] == Expected(ops, conn)[k];
  }

  /** The socket a connection was accepted on. */
  function FdAccepted(ops: seq<Op>, conn: Conn): Option<Fd> {
    if ops == [] then None
    else
      var op := ops[|ops| - 1];
      if op.DoAccept? && op.ctx.conn == conn then Some(op.fd) else FdAccepted(ops[..|ops| - 1], conn)
  }

  lemma {:induction false} PhaseFd(ops: seq<Op>, conn: Conn)
    ensures FdAccepted(ops, conn) ==
            match PhaseOf(ops, conn)
            case Never => None
            case Open(_, fd, _) => Some(fd)
            case Closed(fd) => Some(fd)
    decreases |ops|
  {
    if ops != [] {
      PhaseFd(ops[..|ops| - 1], conn);
    }
  }

  /** Over every run a connection's jobs wait and run at one worker only: the one numbered by its socket modulo
      the number of workers. */
  lemma OneQueue(workers: nat, ops: seq<Op>, conn: Conn, w: nat)
    requires workers > 0 && IsRun(workers, ops) && w < workers
    ensures var s := After(workers, ops);
            && |s.core.queues| == |s.current| == workers
            && (Of(InFlight(s, w), conn) != [] ==>
                FdAccepted(ops, conn).Some? && w == FdAccepted(ops, conn).value % workers)
  {
    JobsInOrder(workers, ops, conn);
    PhaseFd(ops, conn);
    hide PhaseOf, After, Of, InFlight, Expected, FdAccepted;
    assert LaneInOrder(After(workers, ops), ops, conn, workers, w);
  }

  /** The timer a connection was accepted with. */
  function TimerOf(ops: seq<Op>, conn: Conn): TimerId {
    if ops == [] then 0
    else
      var op := ops[|ops| - 1];
      if op.DoAccept? && op.ctx.conn == conn then op.timeout else TimerOf(ops[..|ops| - 1], conn)
  }

  /** Over every run the table holds, for each open bufferevent, the timer of its connection's accept: the one
      that closing deletes. */
  lemma {:induction false} TimersFollowHistory(workers: nat, ops: seq<Op>, bev: Bev)
    requires IsRun(workers, ops)
    ensures var c := After(workers, ops).core;
            bev in c.bufMap ==> bev in c.live && c.bufMap[bev] == TimerOf(ops, c.live[bev].conn)
    decreases |ops|
  {
    hide Apply, PhaseOf;
    if ops != [] {
      var init, op := ops[..|ops| - 1], ops[|ops| - 1];
      var s := After(workers, init);
      TimersFollowHistory(workers, init, bev);
      MapsFollowHistory(workers, init);
      MapsAgreeAt(s.core, init, bev);
      TimerStep(s, op, bev);
      if bev in s.core.live && op.DoAccept? && op.ctx.conn == s.core.live[bev].conn {
        OpenAgain(s, init, op, bev);
      }
    }
  }

  /** A live bufferevent keeps its connection, and the table its timer, until it is closed. */
  lemma TimerStep(s: System, op: Op, bev: Bev)
    requires bev in s.core.bufMap <==> bev in s.core.live
    ensures var c, d := s.core, Apply(s, op).core;
            bev in d.bufMap ==>
              && bev in d.live
              && (if op.DoAccept? && op.ctx.bev == bev && bev !in c.live
                  then d.live[bev].conn == op.ctx.conn && d.bufMap[bev] == op.timeout
                  else bev in c.live && d.bufMap[bev] == c.bufMap[bev] &&
                       (d.live[bev] == c.live[bev] || (op.DoAccept? && op.ctx.bev == bev)))
  {
    hide Enqueue;
  }

  /** An address is accepted once. */
  lemma OpenAgain(s: System, init: seq<Op>, op: Op, bev: Bev)
    requires MapsAgree(s.core, init) && bev in s.core.live && op.DoAccept? && op.ctx.conn == s.core.live[bev].conn
    ensures !Allowed(s, init, op)
  {
    hide PhaseOf;
    assert EntryAgrees(s.core, PhaseOf(init, s.core.live[bev].conn), bev);
  }

  // ----- the heartbeat -----

  /** The heartbeats a history calls for: one for each tick of an open connection, the fifth silent one apart. */
  function BeatsOf(ops: seq<Op>): seq<Bev> {
    if ops == [] then []
    else
      var init, op := ops[..|ops| - 1], ops[|ops| - 1];
      BeatsOf(init) +
      if op.DoTick? && PhaseOf(init, op.ctx.conn).Open? && SilentTicks(init, op.ctx.conn) < 4 then [op.ctx.bev] else []
  }

  lemma BeatStep(s: System, op: Op)
    ensures Apply(s, op).core.beats ==
            s.core.beats + if op.DoTick? && op.ctx.bev in s.core.mCounter && s.core.mCounter[op.ctx.bev] < 4
                              && op.ctx.bev in s.core.bufMap then [op.ctx.bev] else []
  {
    hide Enqueue;
  }

  /** Over every run, heartbeats were written for exactly those ticks, in their order. */
  lemma {:induction false} BeatsFollowHistory(workers: nat, ops: seq<Op>)
    requires IsRun(workers, ops)
    ensures After(workers, ops).core.beats == BeatsOf(ops)
    decreases |ops|
  {
    hide PhaseOf, Apply, SilentTicks;
    if ops != [] {
      var init, op := ops[..|ops| - 1], ops[|ops| - 1];
      var s := After(workers, init);
      BeatsFollowHistory(workers, init);
      BeatStep(s, op);
      if op.DoTick? {
        TickedConnection(workers, init, op.ctx);
      }
    }
  }

  /** The table entry a tick finds is its connection's, and there is one exactly while it is open. */
  lemma TickedConnection(workers: nat, ops: seq<Op>, ctx: Ctx)
    requires IsRun(workers, ops) && Allowed(After(workers, ops), ops, DoTick(ctx))
    ensures var c := After(workers, ops).core;
            && (ctx.bev in c.mCounter <==> PhaseOf(ops, ctx.conn).Open?)
            && (ctx.bev in c.bufMap <==> ctx.bev in c.mCounter)
            && (ctx.bev in c.mCounter ==> c.mCounter[ctx.bev] == SilentTicks(ops, ctx.conn))
  {
    CountersAreSilence(workers, ops, ctx.bev);
    MapsFollowHistory(workers, ops);
    hide PhaseOf, After, SilentTicks;
    var c := After(workers, ops).core;
    assert PhaseAgrees(c, PhaseOf(ops, ctx.conn), ctx.conn);
    if ctx.bev in c.live {
      assert EntryAgrees(c, PhaseOf(ops, c.live[ctx.bev].conn), ctx.bev);
    }
  }

  /** Timer ticks of a connection since its last accept or read, counted in the history. */
  function SilentTicks(ops: seq<Op>, conn: Conn): nat {
    if ops == [] then 0
    else
      var before := SilentTicks(ops[..|ops| - 1], conn);
      match ops[|ops| - 1]
      case DoAccept(_, ctx, _) => if ctx.conn == conn then 0 else before
      case DoRead(ctx, _) => if ctx.conn == conn then 0 else before
      case DoTick(ctx) => if ctx.conn == conn then before + 1 else before
      case _ => before
  }

  lemma {:induction false} SilenceCounted(ops: seq<Op>, conn: Conn)
    ensures PhaseOf(ops, conn).Open? ==> PhaseOf(ops, conn).silent == SilentTicks(ops, conn)
    decreases |ops|
  {
    if ops != [] {
      SilenceCounted(ops[..|ops| - 1], conn);
    }
  }

  /** In every reachable state the tables have the same keys, and every counter is the number of ticks
      since that connection last sent anything: 0 to 4. */
  lemma CountersAreSilence(workers: nat, ops: seq<Op>, bev: Bev)
    requires IsRun(workers, ops)
    ensures var c := After(workers, ops).core;
            && c.bufMap.Keys == c.mCounter.Keys == c.live.Keys
            && (bev in c.mCounter ==> 0 <= c.mCounter[bev] == SilentTicks(ops, c.live[bev].conn) <= 4)
  {
    MapsFollowHistory(workers, ops);
    var c := After(workers, ops).core;
    if bev in c.live {
      SilenceCounted(ops, c.live[bev].conn);
      hide PhaseOf, After;
      assert EntryAgrees(c, PhaseOf(ops, c.live[bev].conn), bev);
    }
  }

  /** A tick closes a live connection exactly when it is the fifth in a row without a read. */
  lemma ClosedAtFifthSilentTick(workers: nat, ops: seq<Op>, ctx: Ctx)
    requires IsRun(workers, ops) && Allowed(After(workers, ops), ops, DoTick(ctx))
    requires ctx.bev in After(workers, ops).core.live
    ensures ctx.bev !in After(workers, ops + [DoTick(ctx)]).core.bufMap
            <==> SilentTicks(ops + [DoTick(ctx)], ctx.conn) == 5
    ensures ctx.bev !in After(workers, ops + [DoTick(ctx)]).core.bufMap <==> SilentTicks(ops, ctx.conn) >= 4
  {
    var later := ops + [DoTick(ctx)];
    assert later[..|later| - 1] == ops;
    CountersAreSilence(workers, ops, ctx.bev);
    TablesAfter(After(workers, ops), DoTick(ctx));
    hide PhaseOf, Apply, DeleteBuf, Tick;
    assert After(workers, later) == Apply(After(workers, ops), DoTick(ctx));
  }

  /** A send reaches a bufferevent exactly while some connection is open on it; bufSend gives -1
      otherwise, in particular after a close until a new connection gets the same bufferevent. */
  lemma SendableExactlyWhileOpen(workers: nat, ops: seq<Op>, bev: Bev)
    requires IsRun(workers, ops)
    ensures bev in After(workers, ops).core.bufMap <==>
            exists conn :: PhaseOf(ops, conn).Open? && PhaseOf(ops, conn).bev == bev
  {
    MapsFollowHistory(workers, ops);
    hide PhaseOf, After;
    var c := After(workers, ops).core;
    if bev in c.bufMap {
      var conn := c.live[bev].conn;
      assert EntryAgrees(c, PhaseOf(ops, conn), bev);
      assert PhaseOf(ops, conn).Open? && PhaseOf(ops, conn).bev == bev;
    }
    forall conn | PhaseOf(ops, conn).Open? && PhaseOf(ops, conn).bev == bev
      ensures bev in c.bufMap
    {
      assert PhaseAgrees(c, PhaseOf(ops, conn), conn);
    }
  }
}
